# Verified models of the framework's stateful cores

Dafny models of six stateful parts of the repository, with proofs. `dafny verify dfyconfig.toml` checks all of them.

* **The intrusive red-black tree with counts** (`ColouredTree`, `RbcTree`). Trees and paths to a position are values;
  nodes are heap objects whose child, parent, colour and count fields are rewritten as the macros do it. A predicate
  says which tree a heap of nodes shows. The macros get right rotation and PREV by exchanging the names of the children;
  here a `Side` is a parameter. Removal has no sentinel leaves: the parent of an empty place is remembered.
* **The runtime store and the codec of lua-protobuf** (`PbTable`, `NameTable`, `FieldDb`, `Varint`, `PbBuffer`,
  `WireFormat`). The hash table moves colliding entries and calls its own resize; the name table has a cache keyed by
  address in front; the field database has two indexes; the readers are unrolled; lengths are put in front afterwards.
* **The RPC protocol** (`Framing`, `DataBuffer`, `RpcStreams`, `ClosureTable`, `RpcConnection`, `RpcRuns`, `RpcClient`,
  `RpcServer`). One connection is a transition system whose bytes may be cut anywhere and whose server answers in any
  order. The client and the server are objects with data buffers, closure array and pending list, and each of their
  methods is shown to take steps of that system, whatever the rest of the connection looks like.
* **The list macros** (`MergeSort`, `LinkedList`): a stable merge sort by relinking, without recursion, and the doubly
  linked list around it.
* **The framework's containers** (`Rpool`, `Rdict`) and the descriptor index of the dispatcher (`FdIndex`).
* **UTF-16 and UTF-32 conversion** (`Utf`), as in sections 2.1 and 2.2 of RFC 2781: a resumable loop that puts both
  modes back when a step fails.

`Bytes` and `Powers` hold what several modules share.

## Main results

* `RbcTree.RbcTree.Insert`, `RbcTree.RbcTree.Remove`: the heap of nodes shows a red-black tree with exact counts, and
  its in-order walk is the old one with, or without, exactly that node; `ColouredTree.HeightBound` and
  `RbcTree.RbcTree.DescentBound` bound every descent, `RbcTree.RbcTree.GetByIndex` and `RbcTree.RbcTree.GetNodeIndex` are
  inverse to each other by way of the walk.
* `PbTable.Table.NewKey`, `PbTable.Table.Resize`: insertion and rehashing, which call each other, terminate and refine a
  finite map; `PbTable.Table.VisitAll` and `PbTable.Table.StoreAll` are its iteration and its runs.
* `NameTable.Names.Replay` with `NameTable.Balance`: after any run the entries are the names in use, counted as news
  minus deletes; `NameTable.Names.LookUp`: a stale cache never changes a result.
* `FieldDb.Type.NewField`, `FieldDb.Type.DelType`: both indexes stay right and every field is freed exactly once.
* `Varint.RoundTrip`, `Varint.Slice.ReadVarint64`: the unrolled readers agree with the simple loop on every slice;
  `WireFormat.WalkEncoded`, `WireFormat.WriteFields`: what is written in place is the encoding, and reads back;
  `WireFormat.WireTypes` and `WireFormat.FieldTags` say in numbers which wire type is which.
* `RpcRuns.AtMostOnce`, `RpcRuns.OwnAnswer`, `RpcRuns.AllComplete`, `RpcRuns.QuietMeansDone`: over all runs of a
  connection; `RpcClient.Client.Readable`, `RpcServer.ServerConnection.Readable`: for any bytes, what is taken and how
  the loop ends, the objects refining the runs up to that; `Framing.ChunksDoNotMatter`: how the bytes are cut makes no
  difference.
* `DataBuffer.Buffer.Transfer`: fragments move without copying, and no byte is lost, doubled or shared.
* `MergeSort.StackSort`: the sort by relinking gives the one stable order (`MergeSort.OneStableOrder`).
* `Utf.AnySchedule`: output, input place and modes do not depend on the room of the calls; `Utf.ConvertsDocument`:
  every document converts completely into the same text.
* `Rpool.Pool.Get`, `Rpool.Pool.Free`: no item is handed out twice; `Rdict.Dict.Add`, `Rdict.Dict.Rehash`: a rehash ends
  in the first table that takes all keys; `FdIndex.Dispatch.DeliverAll`: whom a delivery calls, whatever callbacks do.

Where the claim one would like to make is false of the code, the code is kept, an input is given and the exact condition
is proved:

* growing a hash table makes key 0 appear (`PbTable.ZeroAppears`, exactly when: `PbTable.Table.Settable`);
* a search in the hash map may run behind the table (`Rdict.Overrun`, exactly when: `Rdict.Dict.Find`);
* a message buffer may lose what it holds (`PbBuffer.WrapAround`, exactly when: `PbBuffer.Buffer.StoresAll`);
* with //IGNORE the conversion depends on how its input is cut (`Utf.CutCharacter`, exactly when:
  `Utf.SplitsWellExactly`);
* a server connection is failed, and freed, twice (`RpcServer.FailsTwice`, exactly when:
  `RpcServer.ServerConnection.Readable`);
* a client is failed twice, trips an assertion of its decoder, or calls a closure that is not there
  (`RpcClient.CannotGoOn`, exactly when: `RpcClient.Client.Readable`).

The last two are about bytes that these two programs never send each other (`RpcConnection.NextReplyIsRight`,
`RpcConnection.NextRequestIsRight`).

## Model

| member | source | states |
|---|---|---|
| ColouredTree.PlugWalk | source/3rd/protobuf-c-rpc-master/protobuf-c-rpc/gskrbtreemacros.h:92-100 | the in-order (or reverse) walk of a tree is what lies before a position, the subtree at the position, and what lies after it, for every position and both directions |
| ColouredTree.RotatedWalk | source/3rd/protobuf-c-rpc-master/protobuf-c-rpc/gskrbtreemacros.h:480-499 | for every position, turning an edge leaves the in-order walk of the whole tree as it is, on either side |
| ColouredTree.SplicedWalk | source/3rd/protobuf-c-rpc-master/protobuf-c-rpc/gskrbtreemacros.h:252-266 | putting the only child of a node in the node's place takes exactly that node out of the in-order walk |
| ColouredTree.SuccessorWalk | source/3rd/protobuf-c-rpc-master/protobuf-c-rpc/gskrbtreemacros.h:268-290 | taking the first node of the right subtree out and putting it in the place of the root takes exactly the root out of the in-order walk |
| ColouredTree.AtRank | source/3rd/protobuf-c-rpc-master/protobuf-c-rpc/gskrbtreemacros.h:894-911 | the root of a subtree is the element of the walk whose number is the count of what precedes it, and the walk splits there |
| ColouredTree.WalkReverse | source/3rd/protobuf-c-rpc-master/protobuf-c-rpc/gskrbtreemacros.h:526-539 | the walk with left and right exchanged is the in-order walk backwards, so PREV and LAST are NEXT and FIRST with the children exchanged |
| ColouredTree.PlugColoured | source/3rd/protobuf-c-rpc-master/protobuf-c-rpc/gskrbtreemacros.h:180-233 | a coloured subtree of the black height a position asks for makes the whole tree coloured (no red-red edge, equal black heights), unless it puts red under red at that one place |
| ColouredTree.UnplugColoured | source/3rd/protobuf-c-rpc-master/protobuf-c-rpc/gskrbtreemacros.h:291-374 | conversely every position of a red-black tree asks for one black height, its subtree has it, and a red subtree has a black node above |
| ColouredTree.SplicedColours | source/3rd/protobuf-c-rpc-master/protobuf-c-rpc/gskrbtreemacros.h:252-267 | taking out a red node with at most one child needs no repair; for a black one the child is red, and painting it black repairs, or the place is one black node short |
| ColouredTree.SwapColours | source/3rd/protobuf-c-rpc-master/protobuf-c-rpc/gskrbtreemacros.h:268-290 | which node stands at a place does not matter for the colours, so the successor may take over the colour of the node it replaces |
| ColouredTree.Nephews | source/3rd/protobuf-c-rpc-master/protobuf-c-rpc/gskrbtreemacros.h:297-371 | a position one black node short, below a black sibling, has two coloured nephews of the same black height, and what hangs above fits what the repair leaves |
| ColouredTree.ColouredUnique | source/3rd/protobuf-c-rpc-master/protobuf-c-rpc/gskrbtreemacros.h:92-100 | a coloured tree has one black height only |
| ColouredTree.BlackHeightBounds | source/3rd/protobuf-c-rpc-master/protobuf-c-rpc/gskrbtreemacros.h:380-470 | a coloured tree of black height h has at least 2^h - 1 nodes and is at most 2h (+1 when its root is red) high |
| ColouredTree.HeightBound | source/3rd/protobuf-c-rpc-master/protobuf-c-rpc/gskrbtreemacros.h:380-470 | a red-black tree of n nodes is at most 2*log2(n+1) high |
| ColouredTree.InOrderParts | source/3rd/protobuf-c-rpc-master/protobuf-c-rpc/gskrbtreemacros.h:501-528 | the walk is that of the left subtree, the root, and that of the right subtree |
| ColouredTree.RedBlackRules | source/3rd/protobuf-c-rpc-master/protobuf-c-rpc/gskrbtreemacros.h:92-100 | what red-black means for every node and every two ways down: the root is black, the parent and the children of a red node are black, and all ways from the root to an empty place meet equally many black nodes |
| RbcTree.Cut | source/3rd/protobuf-c-rpc-master/protobuf-c-rpc/gskrbtreemacros.h:92-100 | a heap of nodes shows a tree exactly when it shows the path to a position with a hole and the subtree hanging in it, with agreeing parent links and counts |
| RbcTree.RbcTree.SetRed | source/3rd/protobuf-c-rpc-master/protobuf-c-rpc/gskrbtreemacros.h:650-651 | painting a node changes that node's colour and nothing else of the tree |
| RbcTree.RbcTree.Rotate | source/3rd/protobuf-c-rpc-master/protobuf-c-rpc/gskrbtreemacros.h:913-958 | a rotation on either side gives exactly the turned tree, with the same nodes in the same order, and every count is the size of its subtree again |
| RbcTree.RbcTree.Turn | source/3rd/protobuf-c-rpc-master/protobuf-c-rpc/gskrbtreemacros.h:915-958 | the link surgery of a rotation: which fields of the at most four touched nodes and of `top` change, and to what |
| RbcTree.RbcTree.InsertFixup | source/3rd/protobuf-c-rpc-master/protobuf-c-rpc/gskrbtreemacros.h:638-691 | from a tree that is red-black except for one red node under a possibly red parent, the fixup ends in a red-black tree with the same nodes in the same order |
| RbcTree.RbcTree.InsertFixupStep | source/3rd/protobuf-c-rpc-master/protobuf-c-rpc/gskrbtreemacros.h:641-690 | each turn of that loop keeps this state and moves strictly up the tree |
| RbcTree.RbcTree.InsertRecolour | source/3rd/protobuf-c-rpc-master/protobuf-c-rpc/gskrbtreemacros.h:646-652 | with a red uncle, recolouring moves the one possible violation up the tree |
| RbcTree.RbcTree.InsertRotate | source/3rd/protobuf-c-rpc-master/protobuf-c-rpc/gskrbtreemacros.h:653-664 | with a black or missing uncle, recolouring and one or two rotations keep the state of the loop and move strictly up |
| RbcTree.RbcTree.InsertInnerTurn | source/3rd/protobuf-c-rpc-master/protobuf-c-rpc/gskrbtreemacros.h:655-659 | an inner grandchild becomes an outer one under the same grandparent |
| RbcTree.RbcTree.RemoveFixup | source/3rd/protobuf-c-rpc-master/protobuf-c-rpc/gskrbtreemacros.h:754-837 | from a tree with one place one black node short (the place may be empty: its parent is then the remembered one), the fixup ends in a red-black tree with the same nodes in the same order |
| RbcTree.RbcTree.RemoveFixupStep | source/3rd/protobuf-c-rpc-master/protobuf-c-rpc/gskrbtreemacros.h:757-834 | each turn finishes, or moves the shortage up, or leaves it at a red node, which ends the loop |
| RbcTree.RbcTree.RemoveRedSibling | source/3rd/protobuf-c-rpc-master/protobuf-c-rpc/gskrbtreemacros.h:765-772 | a red sibling is turned up: the shortage stays at the same place, now under a red parent with a black sibling |
| RbcTree.RbcTree.RemoveBlackSibling | source/3rd/protobuf-c-rpc-master/protobuf-c-rpc/gskrbtreemacros.h:773-778 | with two black nephews the shortage moves to the parent |
| RbcTree.RbcTree.RemoveNearRed | source/3rd/protobuf-c-rpc-master/protobuf-c-rpc/gskrbtreemacros.h:781-789 | with only the near nephew red, the sibling is turned so that the far nephew is red |
| RbcTree.RbcTree.RemoveFarRed | source/3rd/protobuf-c-rpc-master/protobuf-c-rpc/gskrbtreemacros.h:790-796 | with the far nephew red, one rotation at the parent ends the shortage: the tree is red-black |
| RbcTree.RbcTree.CountInsertedUp | source/3rd/protobuf-c-rpc-master/protobuf-c-rpc/gskrbtreemacros.h:630-636 | after a leaf was attached, adding one on the way up makes every count the size of its subtree |
| RbcTree.RbcTree.FixCountAndUp | source/3rd/protobuf-c-rpc-master/protobuf-c-rpc/gskrbtreemacros.h:971-979 | recomputing counts from a place upwards makes every count the size of its subtree, whatever the counts above believed |
| RbcTree.RbcTree.Attach | source/3rd/protobuf-c-rpc-master/protobuf-c-rpc/gskrbtreemacros.h:623-640 | hanging a new red leaf at the place found gives the tree with that leaf, counts included |
| RbcTree.RbcTree.Splice | source/3rd/protobuf-c-rpc-master/protobuf-c-rpc/gskrbtreemacros.h:710-725 | taking out a node with at most one child gives the tree with the child in its place; the remembered parent is set exactly when that place is empty |
| RbcTree.RbcTree.Replace | source/3rd/protobuf-c-rpc-master/protobuf-c-rpc/gskrbtreemacros.h:727-753 | the node taken out stands in for the removed one: same place, same colour, both neighbours and the parent linked to it, counts right |
| RbcTree.RbcTree.Outermost | source/3rd/protobuf-c-rpc-master/protobuf-c-rpc/gskrbtreemacros.h:505-511 | following one side's links ends at the node that the walk meets first |
| RbcTree.RbcTree.Next | source/3rd/protobuf-c-rpc-master/protobuf-c-rpc/gskrbtreemacros.h:501-528 | NEXT gives the element after the node in the in-order walk and NULL for the last; PREV is the same walk from the other side |
| RbcTree.RbcTree.Climb | source/3rd/protobuf-c-rpc-master/protobuf-c-rpc/gskrbtreemacros.h:515-522 | climbing while the node is the far child ends at the first node after the subtree, or NULL |
| RbcTree.RbcTree.First | source/3rd/protobuf-c-rpc-master/protobuf-c-rpc/gskrbtreemacros.h:530-539 | FIRST (LAST) gives the first element of the walk from the left (right), NULL in the empty tree |
| RbcTree.RbcTree.Lookup | source/3rd/protobuf-c-rpc-master/protobuf-c-rpc/gskrbtreemacros.h:380-396 | LOOKUP gives the node that compares as equal, or NULL when there is none, within 2*log2(n+1) comparisons |
| RbcTree.RbcTree.Bound | source/3rd/protobuf-c-rpc-master/protobuf-c-rpc/gskrbtreemacros.h:397-470 | SUPREMUM gives the least node not below the key and INFIMUM the greatest not above it, or NULL when there is none, within 2*log2(n+1) comparisons |
| RbcTree.RbcTree.DescentBound | source/3rd/protobuf-c-rpc-master/protobuf-c-rpc/gskrbtreemacros.h:380-470 | any descent of at most the tree's height takes at most 2*log2(n+1) steps in a red-black tree of n nodes |
| RbcTree.RbcTree.LeastAbove | source/3rd/protobuf-c-rpc-master/protobuf-c-rpc/gskrbtreemacros.h:418-451 | in a sorted walk that is split at the key, the first element behind the split is the one least element not below the key |
| RbcTree.RbcTree.FindPlace | source/3rd/protobuf-c-rpc-master/protobuf-c-rpc/gskrbtreemacros.h:586-607 | the descent of INSERT ends at a node with an equal key, or at an empty place with everything before it below the key and everything after it above |
| RbcTree.RbcTree.SortedInsert | source/3rd/protobuf-c-rpc-master/protobuf-c-rpc/gskrbtreemacros.h:584-693 | a new element between all below it and all above it keeps a strictly sorted walk so |
| RbcTree.RbcTree.Insert | source/3rd/protobuf-c-rpc-master/protobuf-c-rpc/gskrbtreemacros.h:584-693 | INSERT reports a node with an equal key and changes nothing, or yields a valid tree (sorted, red-black, coherent links, exact counts) whose walk is the old one with the node put in |
| RbcTree.RbcTree.AddFirst | source/3rd/protobuf-c-rpc-master/protobuf-c-rpc/gskrbtreemacros.h:613-620 | in an empty tree the node becomes the black root with count 1 |
| RbcTree.RbcTree.AddBelow | source/3rd/protobuf-c-rpc-master/protobuf-c-rpc/gskrbtreemacros.h:621-692 | the whole insertion below a leaf: the walk gets the node at exactly that place and the tree is red-black |
| RbcTree.RbcTree.SortedWithout | source/3rd/protobuf-c-rpc-master/protobuf-c-rpc/gskrbtreemacros.h:695-841 | a sorted walk stays sorted when one element goes |
| RbcTree.RbcTree.RankSpliced | source/3rd/protobuf-c-rpc-master/protobuf-c-rpc/gskrbtreemacros.h:710-725 | the node spliced out is the element at its rank, and the rest of the walk stays |
| RbcTree.RbcTree.RankSuccessor | source/3rd/protobuf-c-rpc-master/protobuf-c-rpc/gskrbtreemacros.h:727-753 | the same for a node that is replaced by its successor |
| RbcTree.RbcTree.Remove | source/3rd/protobuf-c-rpc-master/protobuf-c-rpc/gskrbtreemacros.h:695-841 | REMOVE of any node yields a valid tree whose walk is the old one without that node, exact counts included, and clears the node's own three links |
| RbcTree.RbcTree.RemoveLow | source/3rd/protobuf-c-rpc-master/protobuf-c-rpc/gskrbtreemacros.h:703-725 | the case of a node with a missing child, fixup included |
| RbcTree.RbcTree.RemoveHigh | source/3rd/protobuf-c-rpc-master/protobuf-c-rpc/gskrbtreemacros.h:705-753 | the case of a node with two children: its successor is spliced out, fixed up after, and put in its place |
| RbcTree.RbcTree.FinishRemove | source/3rd/protobuf-c-rpc-master/protobuf-c-rpc/gskrbtreemacros.h:726-837 | the fixup runs exactly when a black node was spliced out, and the result is red-black either way |
| RbcTree.RbcTree.GetByIndex | source/3rd/protobuf-c-rpc-master/protobuf-c-rpc/gskrbtreemacros.h:867-892 | GET_BY_INDEX(i) is the i-th node of the in-order walk, NULL when there are not that many |
| RbcTree.RbcTree.GetNodeIndex | source/3rd/protobuf-c-rpc-master/protobuf-c-rpc/gskrbtreemacros.h:894-911 | GET_NODE_INDEX is the place of the node in the in-order walk |
| RbcTree.RbcTree.OnePlace | source/3rd/protobuf-c-rpc-master/protobuf-c-rpc/gskrbtreemacros.h:867-911 | a node has one place in the walk from either side, so the two index queries are inverse to each other |
| RbcTree.RbcTree.Ascending | source/3rd/protobuf-c-rpc-master/protobuf-c-rpc/gskrbtreemacros.h:584-607 | the keys come in strictly ascending order in the walk of every valid tree, as the comparator says |
| RbcTree.RbcTree.Senses | source/3rd/protobuf-c-rpc-master/protobuf-c-rpc/gskrbtreemacros.h:397-470 | seen from the right, the comparator has the opposite sign |
| PbTable.PlacedLinked | source/3rd/lua-protobuf/pb.h:874-893 | a key put into its free main slot keeps every chain acyclic, rooted in its main slot and covering its keys |
| PbTable.MovedLinked | source/3rd/lua-protobuf/pb.h:881-885 | an entry that sits in another chain's main slot may move to a free slot: with its predecessor and its successor relinked, all chains are right again |
| PbTable.SecondLinked | source/3rd/lua-protobuf/pb.h:886-891 | a new key put second into the chain of the slot's owner keeps all chains right |
| PbTable.PlacedHeld | source/3rd/lua-protobuf/pb.h:893-896 | that step adds exactly the key with a zero payload to the map |
| PbTable.MovedHeld | source/3rd/lua-protobuf/pb.h:881-896 | moving the colliding entry loses no key and no payload |
| PbTable.SecondHeld | source/3rd/lua-protobuf/pb.h:886-896 | that step adds exactly the key with a zero payload to the map |
| PbTable.MainSlots | source/3rd/lua-protobuf/pb.h:862-866 | the main slot of a key: multiplied by 2654435761 and cut to the size; no key but 0 has slot 0 |
| PbTable.MainBefore | source/3rd/lua-protobuf/pb.h:922-933 | every key lies on the chain that starts at its main slot |
| PbTable.RoomLeft | source/3rd/lua-protobuf/pb.h:875-880 | a table with fewer keys than slots besides slot 0 has a free slot among them |
| PbTable.KeysFit | source/3rd/lua-protobuf/pb.h:875-880 | a table never holds more keys than slots besides slot 0, and one that holds as many has no free one |
| PbTable.SevenKeys | source/3rd/lua-protobuf/pb.h:868-897 | seven keys stored in an empty table fill eight slots and leave has_zero unset |
| PbTable.ZeroAppears | source/3rd/lua-protobuf/pb.h:911-915 | storing keys 1 to 8 in an empty table sets has_zero with the eighth, though key 0 was never stored: the stronger claim about key 0 is false |
| PbTable.Table.constructor | source/3rd/lua-protobuf/pb.h:856-857 | a new table holds nothing and has no slots |
| PbTable.Table.Get | source/3rd/lua-protobuf/pb.h:922-933 | the lookup finds a key exactly when the map has it, and then at the slot with its payload; key 0 exactly when has_zero |
| PbTable.Table.FindFree | source/3rd/lua-protobuf/pb.h:875-878 | the search from lastfree downwards finds a free slot exactly when there is one besides slot 0, and skips used slots only |
| PbTable.Table.FindPrevious | source/3rd/lua-protobuf/pb.h:881-882 | following the links from the occupant's main slot reaches the entry before it |
| PbTable.Table.MoveAway | source/3rd/lua-protobuf/pb.h:881-885 | the relocation in place: the map gains the new key only, slot 0 and all other keys stay |
| PbTable.Table.FollowOwner | source/3rd/lua-protobuf/pb.h:886-891 | the insertion behind the owner in place: the map gains the new key only |
| PbTable.Table.NewKey | source/3rd/lua-protobuf/pb.h:868-897 | pbT_newkey terminates, adds exactly the key with a zero payload, says exactly when has_zero changes and when the table doubles, and fails exactly when the table has to grow and its size has reached the limit |
| PbTable.Table.TakeFree | source/3rd/lua-protobuf/pb.h:881-892 | with a free slot at hand the key is added and no chain, key or payload is lost, whether the owner of its main slot is at home there or not |
| PbTable.Table.GrowAndAdd | source/3rd/lua-protobuf/pb.h:879-880 | without one the table becomes exactly twice as large and the key is added, or it fails and nothing changes |
| PbTable.DoublesOnce | source/3rd/lua-protobuf/pb.h:902-904 | a size that doubling has ended at can be doubled once more exactly below the limit, and always when there is a larger such size |
| PbTable.Table.SlotFits | source/3rd/lua-protobuf/pb.h:911-913 | before each slot is entered into the new table, that has room for its key or can still grow |
| PbTable.Table.Resize | source/3rd/lua-protobuf/pb.h:899-920 | pb_resizetable, for any size, keeps the map, sets has_zero exactly when the old table had slots, gives key 0 the payload of the last free slot, and fails exactly when doubling ends below the size asked for; a size without a slot for every key makes the new table grow while it is filled, which ends at the next doubling that has one and never fails |
| PbTable.Table.CopyInto | source/3rd/lua-protobuf/pb.h:911-916 | rehashing enters every slot into the new table, free ones as key 0, and ends with the same map; the new table grows exactly as often as its keys need |
| PbTable.Table.CopySlot | source/3rd/lua-protobuf/pb.h:912-915 | one round adds one entry, and doubles the new table exactly when that has no free slot |
| PbTable.Table.SetValue | source/3rd/lua-protobuf/pb.h:935-940 | writing through the returned entry changes that key's payload only |
| PbTable.Table.Settable | source/3rd/lua-protobuf/pb.h:935-940 | pb_settable finds the key or adds it with a zero payload; it says exactly when key 0 appears without having been stored, and does not grow a table in which the key finds a slot |
| PbTable.Table.NextEntry | source/3rd/lua-protobuf/pb.h:942-958 | pb_nextentry goes to the next entry and skips none |
| PbTable.Table.VisitAll | source/3rd/lua-protobuf/pb.h:942-958 | a whole iteration meets every stored key exactly once, key 0 included when has_zero |
| PbTable.Table.StoreAll | source/3rd/lua-protobuf/pb.h:935-940 | any sequence of stores on nonzero keys refines the finite map, up to the first one that needs more slots than there can be |
| ClosureTable.Partition | source/3rd/protobuf-c-rpc-master/protobuf-c-rpc/protobuf-c-rpc-client.c:460-480 | the ids of the array split into those that hold a call and those on the free list |
| ClosureTable.Popped | source/3rd/protobuf-c-rpc-master/protobuf-c-rpc/protobuf-c-rpc-client.c:465-480 | taking the first free id keeps the list acyclic, ending in 0 and covering every id without a call |
| ClosureTable.Pushed | source/3rd/protobuf-c-rpc-master/protobuf-c-rpc/protobuf-c-rpc-client.c:571-577 | putting a released id in front keeps the list so; the id was not on it |
| ClosureTable.Grown | source/3rd/protobuf-c-rpc-master/protobuf-c-rpc/protobuf-c-rpc-client.c:407-434 | the doubled array with the new ids threaded in front of the old list has the same calls and a right list |
| ClosureTable.SweptMore | source/3rd/protobuf-c-rpc-master/protobuf-c-rpc/protobuf-c-rpc-client.c:196-203 | the sweep over the array collects each waiting call once, in the order of the ids |
| ClosureTable.Table.constructor | source/3rd/protobuf-c-rpc-master/protobuf-c-rpc/protobuf-c-rpc-client.c:217-228 | a fresh table has one free id and no calls |
| ClosureTable.Table.Grow | source/3rd/protobuf-c-rpc-master/protobuf-c-rpc/protobuf-c-rpc-client.c:407-434 | growing keeps all calls and puts exactly the new ids in front of the free list; the doubled size wraps around exactly from 2^31 slots on |
| ClosureTable.Table.Allocate | source/3rd/protobuf-c-rpc-master/protobuf-c-rpc/protobuf-c-rpc-client.c:460-480 | the id handed out is below 2^32 and was not in use; all other calls keep theirs; the array grows exactly when the list is empty, and there is no room in 32 bits exactly when it then has 2^31 slots |
| ClosureTable.Table.Release | source/3rd/protobuf-c-rpc-master/protobuf-c-rpc/protobuf-c-rpc-client.c:571-577 | release gives back the call of that id, frees it, and keeps all others |
| ClosureTable.Table.FailAll | source/3rd/protobuf-c-rpc-master/protobuf-c-rpc/protobuf-c-rpc-client.c:196-203 | every waiting call is collected, none twice, in the order of the ids |
| Framing.IdRoundTrip | source/3rd/protobuf-c-rpc-master/protobuf-c-rpc/protobuf-c-rpc-client.c:490-499 | a request id comes back in the client's byte order as it went out |
| Framing.RequestRoundTrip | source/3rd/protobuf-c-rpc-master/protobuf-c-rpc/protobuf-c-rpc-server.c:535-582 | decoding what client_serialize wrote, with anything after it, gives the request and exactly the rest, unless there is no method with its index or its message does not unpack |
| Framing.ReplyRoundTrip | source/3rd/protobuf-c-rpc-master/protobuf-c-rpc/protobuf-c-rpc-client.c:624-692 | the same for what server_serialize wrote, with a message or without one |
| Framing.RequestLayout | source/3rd/protobuf-c-rpc-master/protobuf-c-rpc/protobuf-c-rpc-client.c:601-622 | a request on the wire: index and length of the message as little-endian words, the four bytes of the id, the message |
| Framing.ReplyLayout | source/3rd/protobuf-c-rpc-master/protobuf-c-rpc/protobuf-c-rpc-server.c:500-533 | a reply on the wire: status 0 with a message and 1 without one, method index, length (0 without a message) as little-endian words, the four bytes of the id, the message |
| Framing.IdLayout | source/3rd/protobuf-c-rpc-master/protobuf-c-rpc/protobuf-c-rpc-client.c:611-614 | the id goes out in the byte order of the client's machine |
| Framing.RequestDecoded | source/3rd/protobuf-c-rpc-master/protobuf-c-rpc/protobuf-c-rpc-server.c:535-582 | only what the client could have written is decoded, and a request is incomplete exactly when it is not one with anything behind it |
| Framing.ReplyDecoded | source/3rd/protobuf-c-rpc-master/protobuf-c-rpc/protobuf-c-rpc-client.c:634-692 | which of the five results a reply has, what is taken and what is left, by the three words of its header: any status but 0 means no message |
| Framing.RequestSteady | source/3rd/protobuf-c-rpc-master/protobuf-c-rpc/protobuf-c-rpc-server.c:546-582 | once more than an incomplete request is there, later bytes change neither the result nor what is left, and something is consumed |
| Framing.ReplySteady | source/3rd/protobuf-c-rpc-master/protobuf-c-rpc/protobuf-c-rpc-client.c:634-692 | the same for replies |
| Framing.RequestPrefix | source/3rd/protobuf-c-rpc-master/protobuf-c-rpc/protobuf-c-rpc-server.c:547-561 | no proper prefix of a request is taken or refused |
| Framing.ReplyPrefix | source/3rd/protobuf-c-rpc-master/protobuf-c-rpc/protobuf-c-rpc-client.c:635-646 | no proper prefix of a reply is taken or refused |
| Framing.TakeMore | source/3rd/protobuf-c-rpc-master/protobuf-c-rpc/protobuf-c-rpc-server.c:452-484 | the decode loop on a longer input takes what it took before and goes on from the bytes it left |
| Framing.TakenAll | source/3rd/protobuf-c-rpc-master/protobuf-c-rpc/protobuf-c-rpc-server.c:452-484 | the loop leaves nothing that it could take, and what stops it, an incomplete request, an index without a method or a message that does not unpack, is seen at the bytes that it leaves |
| Framing.ChunksDoNotMatter | source/3rd/protobuf-c-rpc-master/protobuf-c-rpc/protobuf-c-rpc-server.c:429-484 | the requests that the server takes, and what stops it, depend only on the bytes received, not on how reads split them |
| RpcStreams.ServerDeserialize | source/3rd/protobuf-c-rpc-master/protobuf-c-rpc/protobuf-c-rpc-server.c:535-582 | on the fragment chain, the decoder does what the decoder on bytes does: an incomplete frame leaves the buffer alone, a whole one is consumed exactly, and a refusal says whether a method was found |
| RpcStreams.ClientDeserialize | source/3rd/protobuf-c-rpc-master/protobuf-c-rpc/protobuf-c-rpc-client.c:624-692 | the same for replies |
| RpcConnection.FirstRequest | source/3rd/protobuf-c-rpc-master/protobuf-c-rpc/protobuf-c-rpc-server.c:452-484 | what can be decoded from the first bytes of a stream of requests is its first request, and the remaining bytes are the remaining requests |
| RpcConnection.FirstReply | source/3rd/protobuf-c-rpc-master/protobuf-c-rpc/protobuf-c-rpc-client.c:549-582 | the same for replies |
| RpcConnection.InvokeKeeps | source/3rd/protobuf-c-rpc-master/protobuf-c-rpc/protobuf-c-rpc-client.c:448-481 | an invocation keeps the invariant of the connection, on a live client and on a failed one |
| RpcConnection.ServeKeeps | source/3rd/protobuf-c-rpc-master/protobuf-c-rpc/protobuf-c-rpc-server.c:452-484 | decoding a request keeps it |
| RpcConnection.RespondKeeps | source/3rd/protobuf-c-rpc-master/protobuf-c-rpc/protobuf-c-rpc-server.c:296-378 | answering any pending request, in any order, keeps it |
| RpcConnection.CompleteKeeps | source/3rd/protobuf-c-rpc-master/protobuf-c-rpc/protobuf-c-rpc-client.c:549-582 | handling a reply keeps it |
| RpcConnection.FailKeeps | source/3rd/protobuf-c-rpc-master/protobuf-c-rpc/protobuf-c-rpc-client.c:125-205 | failing keeps it, however the closures that wait are ordered |
| RpcConnection.BytesMove | source/3rd/protobuf-c-rpc-master/protobuf-c-rpc/protobuf-c-rpc-server.c:407-451 | moving any number of bytes, in any of the six buffers, and closing the server's side keep it |
| RpcConnection.NextRequestIsRight | source/3rd/protobuf-c-rpc-master/protobuf-c-rpc/protobuf-c-rpc-server.c:452-484 | what the server decodes next is the next request that was issued; it is never refused |
| RpcConnection.NextReplyIsRight | source/3rd/protobuf-c-rpc-master/protobuf-c-rpc/protobuf-c-rpc-client.c:549-582 | what the client decodes next is the next answer, under the id of the call that it answers; it is never refused |
| RpcConnection.Kept | source/3rd/protobuf-c-rpc-master/protobuf-c-rpc/protobuf-c-rpc-client.c:125-205 | every step of a connection keeps the invariant |
| RpcConnection.LeadsWell | source/3rd/protobuf-c-rpc-master/protobuf-c-rpc/protobuf-c-rpc-client.c:549-582 | a sequence of steps from a state with the invariant ends in one |
| RpcRuns.Always | source/3rd/protobuf-c-rpc-master/protobuf-c-rpc/protobuf-c-rpc-client.c:549-582 | every state of every run satisfies it |
| RpcRuns.OnlyGrows | source/3rd/protobuf-c-rpc-master/protobuf-c-rpc/protobuf-c-rpc-client.c:571-577 | no request, answer or completed closure is ever taken back |
| RpcRuns.RunsOn | source/3rd/protobuf-c-rpc-master/protobuf-c-rpc/protobuf-c-rpc-client.c:549-582 | a run goes on with any sequence of steps from its last state, so what the client and server objects do stays within runs |
| RpcRuns.AtMostOnce | source/3rd/protobuf-c-rpc-master/protobuf-c-rpc/protobuf-c-rpc-client.c:571-577 | in every state of every run every closure has been called at most once |
| RpcRuns.OwnAnswer | source/3rd/protobuf-c-rpc-master/protobuf-c-rpc/protobuf-c-rpc-client.c:571-573 | a closure called with a message gets the outcome of an answer that the server gave to this very call, under the method index and the id of the request that was issued for it, despite recycled ids and replies in any order |
| RpcRuns.OnePlace | source/3rd/protobuf-c-rpc-master/protobuf-c-rpc/protobuf-c-rpc-client.c:460-480 | an outstanding call is in exactly one place: on its way to the server, pending there, or in an answer on its way back |
| RpcRuns.OneId | source/3rd/protobuf-c-rpc-master/protobuf-c-rpc/protobuf-c-rpc-client.c:460-480 | two ids in use never stand for the same call |
| RpcRuns.NeverRejected | source/3rd/protobuf-c-rpc-master/protobuf-c-rpc/protobuf-c-rpc-client.c:484-500 | neither side refuses what the other one sent, and every reply that arrives comes under an id that waits |
| RpcRuns.AllComplete | source/3rd/protobuf-c-rpc-master/protobuf-c-rpc/protobuf-c-rpc-client.c:192-204 | once the client has failed, every call has been completed exactly once |
| RpcRuns.QuietMeansDone | source/3rd/protobuf-c-rpc-master/protobuf-c-rpc/protobuf-c-rpc-client.c:549-582 | when no bytes are on the way and nothing is pending, no closure waits |
| RpcRuns.ServerNeverStuck | source/3rd/protobuf-c-rpc-master/protobuf-c-rpc/protobuf-c-rpc-server.c:452-484 | when all bytes have arrived, a server that holds some can decode a request |
| RpcRuns.ClientNeverStuck | source/3rd/protobuf-c-rpc-master/protobuf-c-rpc/protobuf-c-rpc-client.c:549-582 | when all bytes have arrived, a client that holds some can decode a reply |
| RpcClient.Client.constructor | source/3rd/protobuf-c-rpc-master/protobuf-c-rpc/protobuf-c-rpc-client.c:217-228 | a connected client with one free id is the client side of a fresh connection |
| RpcClient.Client.Invoke | source/3rd/protobuf-c-rpc-master/protobuf-c-rpc/protobuf-c-rpc-client.c:708-740 | for every connection that it is the client of, an invocation is a step of the transition system, unless the closure array has no room in 32 bits; what is appended to the outgoing bytes is the method index, the length, the id of the call and the message; a failed client calls the closure at once |
| RpcClient.Client.Written | source/3rd/protobuf-c-rpc-master/protobuf-c-rpc/protobuf-c-rpc-client.c:509-525 | writing out n bytes is a step of the transition system |
| RpcClient.Client.Fail | source/3rd/protobuf-c-rpc-master/protobuf-c-rpc/protobuf-c-rpc-client.c:157-204 | failing empties both buffers and calls all waiting closures in the order of their ids, which is a step of the transition system |
| RpcClient.NeverStops | source/3rd/protobuf-c-rpc-master/protobuf-c-rpc/protobuf-c-rpc-client.c:526-584 | nothing that the server has written stops the read loop |
| RpcClient.Client.AnyBytes | source/3rd/protobuf-c-rpc-master/protobuf-c-rpc/protobuf-c-rpc-client.c:526-584 | whatever bytes arrive, there is a connection whose client holds what this one holds and whose server has written them, so the next three rows are about all bytes |
| RpcClient.Client.TakeReply | source/3rd/protobuf-c-rpc-master/protobuf-c-rpc/protobuf-c-rpc-client.c:549-577 | one turn of the read loop: the step that the next reply calls for, or nothing when it is incomplete; for an id that does not wait the callback has failed the client by then |
| RpcClient.Client.Turn | source/3rd/protobuf-c-rpc-master/protobuf-c-rpc/protobuf-c-rpc-client.c:549-577 | the same with what the loop does about it: a message that does not unpack fails the client once, an id that does not wait twice, and the second time trips an assertion |
| RpcClient.Client.Readable | source/3rd/protobuf-c-rpc-master/protobuf-c-rpc/protobuf-c-rpc-client.c:526-584 | the replies taken, and which of five ways the read loop ends, are a function of the calls that wait and of the bytes; it is failed twice exactly when it stops at an id that does not wait; it is a sequence of steps up to a failure, an assertion or a missing closure, and to the end when there is none or one failure; what the server has written never stops it |
| RpcClient.NoSuchId | source/3rd/protobuf-c-rpc-master/protobuf-c-rpc/protobuf-c-rpc-client.c:484-500 | a reply with an empty message under id 0 is such a stop for every service |
| RpcClient.NotAnnounced | source/3rd/protobuf-c-rpc-master/protobuf-c-rpc/protobuf-c-rpc-client.c:683-688 | a reply without success that announces a message trips the decoder's assertion |
| RpcClient.NotLookedUp | source/3rd/protobuf-c-rpc-master/protobuf-c-rpc/protobuf-c-rpc-client.c:571-573 | a reply without a message is not looked up, whatever its id |
| RpcClient.CannotGoOn | source/3rd/protobuf-c-rpc-master/protobuf-c-rpc/protobuf-c-rpc-client.c:484-577 | three replies, of 16, 17 and 16 bytes, with which a new client of any service fails twice, trips an assertion, or calls a closure that is not there |
| RpcServer.PendingMore | source/3rd/protobuf-c-rpc-master/protobuf-c-rpc/protobuf-c-rpc-server.c:261-262 | appending a decoded request keeps the list of pending requests free of repeats and equal to what is pending |
| RpcServer.PendingLess | source/3rd/protobuf-c-rpc-master/protobuf-c-rpc/protobuf-c-rpc-server.c:372-373 | removing an answered request from any place keeps it so |
| RpcServer.ServerConnection.constructor | source/3rd/protobuf-c-rpc-master/protobuf-c-rpc/protobuf-c-rpc-server.c:604-610 | a new connection is the server side of a fresh connection |
| RpcServer.ServerConnection.Shut | source/3rd/protobuf-c-rpc-master/protobuf-c-rpc/protobuf-c-rpc-server.c:130-155 | closing drops both buffers and all pending requests, which is a step of the transition system |
| RpcServer.ServerConnection.Written | source/3rd/protobuf-c-rpc-master/protobuf-c-rpc/protobuf-c-rpc-server.c:407-425 | writing out n bytes is a step of the transition system |
| RpcServer.ServerConnection.Respond | source/3rd/protobuf-c-rpc-master/protobuf-c-rpc/protobuf-c-rpc-server.c:296-378 | answering the request at any place of the list is a step of the transition system; what is appended to the outgoing bytes is the status, the method index of that request, the length, its id and the message |
| RpcServer.ServerConnection.AnyBytes | source/3rd/protobuf-c-rpc-master/protobuf-c-rpc/protobuf-c-rpc-server.c:427-485 | whatever bytes arrive, there is a connection whose server holds what this one holds and whose client has written them, so the next three rows are about all bytes |
| RpcServer.ServerConnection.TakeRequest | source/3rd/protobuf-c-rpc-master/protobuf-c-rpc/protobuf-c-rpc-server.c:452-479 | one turn of the read loop: the step that the next request calls for, or nothing when it is incomplete; for an index without a method the callback has failed the connection by then |
| RpcServer.ServerConnection.Turn | source/3rd/protobuf-c-rpc-master/protobuf-c-rpc/protobuf-c-rpc-server.c:452-479 | the same with what the loop does about it: a message that does not unpack fails the connection once, an index without a method twice |
| RpcServer.ServerConnection.Readable | source/3rd/protobuf-c-rpc-master/protobuf-c-rpc/protobuf-c-rpc-server.c:427-485 | the requests taken, and how often the connection is failed, are a function of the bytes received so far: at most once exactly when the loop does not stop at an index without a method; it is a sequence of steps up to the first failure, and to the end when there is no second one; what the client has written never fails it |
| RpcServer.NotListed | source/3rd/protobuf-c-rpc-master/protobuf-c-rpc/protobuf-c-rpc-server.c:381-398 | a request of twelve bytes whose index no service has is such a stop |
| RpcServer.FailsTwice | source/3rd/protobuf-c-rpc-master/protobuf-c-rpc/protobuf-c-rpc-server.c:381-471 | it fails a new connection of any service twice, although the first failure frees the connection: that a connection is failed once is false |
| DataBuffer.JoinAppend | source/3rd/protobuf-c-rpc-master/protobuf-c-rpc/protobuf-c-rpc-data-buffer.c:157-166 | the bytes of two chains one after the other are the bytes of the one chain and then those of the other |
| DataBuffer.Buffer.constructor | source/3rd/protobuf-c-rpc-master/protobuf-c-rpc/protobuf-c-rpc-data-buffer.c:147-155 | an initialised buffer is empty |
| DataBuffer.Buffer.Append | source/3rd/protobuf-c-rpc-master/protobuf-c-rpc/protobuf-c-rpc-data-buffer.c:180-213 | append adds the bytes at the end of the queue; size is the sum of the fragments' lengths |
| DataBuffer.Buffer.AppendSome | source/3rd/protobuf-c-rpc-master/protobuf-c-rpc/protobuf-c-rpc-data-buffer.c:189-210 | one round copies exactly as much as fits into the last fragment; a round that finds it full adds a new one and copies nothing |
| DataBuffer.Buffer.Read | source/3rd/protobuf-c-rpc-master/protobuf-c-rpc/protobuf-c-rpc-data-buffer.c:317-353 | read takes up to max bytes from the front and leaves the rest |
| DataBuffer.Buffer.Discard | source/3rd/protobuf-c-rpc-master/protobuf-c-rpc/protobuf-c-rpc-data-buffer.c:522-551 | discard drops up to max bytes from the front |
| DataBuffer.Buffer.Peek | source/3rd/protobuf-c-rpc-master/protobuf-c-rpc/protobuf-c-rpc-data-buffer.c:371-398 | peek gives the first max bytes and changes nothing |
| DataBuffer.Buffer.Drain | source/3rd/protobuf-c-rpc-master/protobuf-c-rpc/protobuf-c-rpc-data-buffer.c:850-877 | drain appends the whole source and leaves it empty; its fragments change hands and are not shared |
| DataBuffer.Buffer.TransferWhole | source/3rd/protobuf-c-rpc-master/protobuf-c-rpc/protobuf-c-rpc-data-buffer.c:932-949 | the loop moves whole fragments: the target gains exactly what the source loses |
| DataBuffer.Buffer.CopyFrom | source/3rd/protobuf-c-rpc-master/protobuf-c-rpc/protobuf-c-rpc-data-buffer.c:950-957 | the remaining bytes are copied out of one fragment |
| DataBuffer.Buffer.Transfer | source/3rd/protobuf-c-rpc-master/protobuf-c-rpc/protobuf-c-rpc-data-buffer.c:924-962 | transfer moves exactly max bytes, or all there are; target followed by source is the same byte sequence as before, and no fragment is shared |
| DataBuffer.Buffer.Reset | source/3rd/protobuf-c-rpc-master/protobuf-c-rpc/protobuf-c-rpc-data-buffer.c:699-712 | a reset buffer is empty |
| MergeSort.AlikeAppend | source/3rd/protobuf-c-rpc-master/protobuf-c-rpc/gsklistmacros.h:355-391 | the elements that compare as equal to a key, in order, are those of the parts of a list put together |
| MergeSort.Permutation | source/3rd/protobuf-c-rpc-master/protobuf-c-rpc/gsklistmacros.h:110-201 | a stably sorted list is a permutation of its input |
| MergeSort.OneStableOrder | source/3rd/protobuf-c-rpc-master/protobuf-c-rpc/gsklistmacros.h:110-201 | for every total preorder there is only one stably sorted order |
| MergeSort.StableOrder | source/3rd/protobuf-c-rpc-master/protobuf-c-rpc/gsklistmacros.h:110-201 | in the stably sorted order no node comes before one that is less, and of two that compare as equal the one that came first in the input still does |
| MergeSort.MergeSorted | source/3rd/protobuf-c-rpc-master/protobuf-c-rpc/gsklistmacros.h:355-391 | merging two sorted lists gives a sorted list |
| MergeSort.MergeAlike | source/3rd/protobuf-c-rpc-master/protobuf-c-rpc/gsklistmacros.h:359-361 | in a merge, elements that compare as equal come from the first list before those from the second, in their old order |
| MergeSort.MergeStable | source/3rd/protobuf-c-rpc-master/protobuf-c-rpc/gsklistmacros.h:355-391 | merging the stably sorted forms of two lists gives the stably sorted form of the two lists together |
| MergeSort.CarriedGood | source/3rd/protobuf-c-rpc-master/protobuf-c-rpc/gsklistmacros.h:151-181 | pushing a new run up the stack keeps every slot the sorted form of consecutive input, and the whole stack the input so far |
| MergeSort.CarriedCounted | source/3rd/protobuf-c-rpc-master/protobuf-c-rpc/gsklistmacros.h:151-181 | slot i is empty or holds a run of 2^(k+i) elements, with k = 1 in the sort; only the run of the last odd element may be one short |
| MergeSort.CollapsedGood | source/3rd/protobuf-c-rpc-master/protobuf-c-rpc/gsklistmacros.h:184-200 | merging the slots from the lowest up gives the sorted form of the whole input |
| MergeSort.HeightBound | source/3rd/protobuf-c-rpc-master/protobuf-c-rpc/gsklistmacros.h:112-160 | the stack is never higher than log2(n+1) |
| MergeSort.SortingBound | source/3rd/protobuf-c-rpc-master/protobuf-c-rpc/gsklistmacros.h:112-160 | the array of 64 slots suffices for fewer than 2^64 elements |
| MergeSort.SortingStep | source/3rd/protobuf-c-rpc-master/protobuf-c-rpc/gsklistmacros.h:116-182 | one turn of the main loop keeps: the stack holds the sorted input so far and the rest is still to come |
| MergeSort.SortingEnds | source/3rd/protobuf-c-rpc-master/protobuf-c-rpc/gsklistmacros.h:184-200 | when the input is used up, the merged stack is the stable sort of the input |
| MergeSort.PairGood | source/3rd/protobuf-c-rpc-master/protobuf-c-rpc/gsklistmacros.h:123-149 | the first pair, or the odd last element, becomes a stably sorted run of just these |
| MergeSort.MergeLists | source/3rd/protobuf-c-rpc-master/protobuf-c-rpc/gsklistmacros.h:355-391 | the relinking merge computes the merge of the two chains, touching only their nodes |
| MergeSort.MergeUp | source/3rd/protobuf-c-rpc-master/protobuf-c-rpc/gsklistmacros.h:168-180 | the run of a slot, which came earlier, is the first list of the merge |
| MergeSort.Carry | source/3rd/protobuf-c-rpc-master/protobuf-c-rpc/gsklistmacros.h:151-181 | the loop over the slots leaves the stack as the carry says |
| MergeSort.Collapse | source/3rd/protobuf-c-rpc-master/protobuf-c-rpc/gsklistmacros.h:184-200 | the loop over the slots returns the chain of the merged runs |
| MergeSort.TakePair | source/3rd/protobuf-c-rpc-master/protobuf-c-rpc/gsklistmacros.h:116-149 | the first two nodes, or the odd last one, become a run of their own |
| MergeSort.TakeRun | source/3rd/protobuf-c-rpc-master/protobuf-c-rpc/gsklistmacros.h:116-182 | one turn of the main loop in place |
| MergeSort.StackSort | source/3rd/protobuf-c-rpc-master/protobuf-c-rpc/gsklistmacros.h:110-201 | the sort returns the nodes of the list in the stably sorted order, and uses at most log2(n+1) slots |
| LinkedList.List.constructor | source/3rd/protobuf-c-rpc-master/protobuf-c-rpc/gsklistmacros.h:258-263 | an empty list |
| LinkedList.List.Sort | source/3rd/protobuf-c-rpc-master/protobuf-c-rpc/gsklistmacros.h:341-352 | GSK_LIST_SORT sorts stably and restores the back links and `last` |
| LinkedList.List.SetBack | source/3rd/protobuf-c-rpc-master/protobuf-c-rpc/gsklistmacros.h:346-351 | the final pass makes every node lead back to the one before it |
| LinkedList.List.Prepend | source/3rd/protobuf-c-rpc-master/protobuf-c-rpc/gsklistmacros.h:272-282 | the node comes first and all links agree |
| LinkedList.List.Append | source/3rd/protobuf-c-rpc-master/protobuf-c-rpc/gsklistmacros.h:283-284 | the node comes last and all links agree |
| LinkedList.List.RemoveFirst | source/3rd/protobuf-c-rpc-master/protobuf-c-rpc/gsklistmacros.h:285-292 | the first node goes and all links agree |
| LinkedList.List.Remove | source/3rd/protobuf-c-rpc-master/protobuf-c-rpc/gsklistmacros.h:295-306 | exactly the node goes, from any place; its own links stay as they were |
| LinkedList.List.InsertAfter | source/3rd/protobuf-c-rpc-master/protobuf-c-rpc/gsklistmacros.h:308-320 | the node comes right behind the given one |
| LinkedList.List.Reverse | source/3rd/protobuf-c-rpc-master/protobuf-c-rpc/gsklistmacros.h:325-340 | the nodes come in the opposite order and all links agree |
| Varint.RoundTrip | source/3rd/lua-protobuf/pb.h:702-717 | reading what was written for any 64-bit number, with any bytes after it, gives the number and exactly those bytes |
| Varint.FixedRoundTrip | source/3rd/lua-protobuf/pb.h:783-807 | reading a fixed-width number gives back what was written |
| Varint.EncodeDigit | source/3rd/lua-protobuf/pb.h:702-717 | byte k of a varint carries the k-th seven bits of the number, and has its top bit exactly when another byte follows |
| Varint.LengthExactly | source/3rd/lua-protobuf/pb.h:411-425 | a varint ends with the first byte without the top bit, which must be among the first ten |
| Varint.FixedDigit | source/3rd/lua-protobuf/pb.h:783-807 | byte k of a fixed-width number is the digit that counts 256^k |
| Varint.Powers256 | source/3rd/lua-protobuf/pb.h:783-807 | these powers in numbers, up to the 2^32 and 2^64 at which the two widths end |
| Varint.EncodeLength | source/3rd/lua-protobuf/pb.h:702-717 | a number is written in one byte for each seven bits |
| Varint.TenDigits | source/3rd/lua-protobuf/pb.h:690-717 | a 64-bit number takes at most ten bytes and a 32-bit number at most five |
| Varint.Slice.ReadFixed | source/3rd/lua-protobuf/pb.h:495-521 | the fixed readers give the little-endian value, or fail and move nothing when bytes are missing |
| Varint.Slice.ReadSlow | source/3rd/lua-protobuf/pb.h:411-425 | the simple loop reads the varint at the front, or fails and moves nothing when it does not end within ten bytes |
| Varint.Slice.ReadHead | source/3rd/lua-protobuf/pb.h:431-435 | the first four bytes of the unrolled readers, with wrapping subtraction, collect the low 28 bits and stay in the slice |
| Varint.Slice.ReadFallback32 | source/3rd/lua-protobuf/pb.h:427-446 | the unrolled 32-bit reader stays in bounds and has the length and success of the simple loop and its value mod 2^32 |
| Varint.Slice.AddDigit | source/3rd/lua-protobuf/pb.h:452-459 | one line of it, in wrapping 32-bit arithmetic: a byte adds its seven bits, and the top bit of one that goes on comes off again |
| Varint.Slice.ReadMiddle | source/3rd/lua-protobuf/pb.h:452-459 | bytes five to eight of the unrolled 64-bit reader |
| Varint.Slice.ReadFallback64 | source/3rd/lua-protobuf/pb.h:448-466 | the unrolled 64-bit reader stays in bounds and agrees with the simple loop in value, length and success |
| Varint.Slice.ReadVarint32 | source/3rd/lua-protobuf/pb.h:475-485 | on every slice, the reader gives the varint mod 2^32 and leaves exactly what follows it |
| Varint.Slice.ReadVarint64 | source/3rd/lua-protobuf/pb.h:487-493 | on every slice, the reader gives the varint and leaves exactly what follows it |
| PbBuffer.Write32 | source/3rd/lua-protobuf/pb.h:690-700 | the unrolled writer writes exactly the varint of the number, at most five bytes, and nothing else |
| PbBuffer.Write64 | source/3rd/lua-protobuf/pb.h:702-717 | the unrolled writer writes exactly the varint of the number, at most ten bytes, and nothing else |
| PbBuffer.Buffer.constructor | source/3rd/lua-protobuf/pb.h:684-685 | an initialised buffer is empty |
| PbBuffer.Buffer.Prepare | source/3rd/lua-protobuf/pb.h:719-735 | there is room for len bytes afterwards and the contents stay; with memory it fails exactly when growing by half ends below what is needed |
| PbBuffer.Buffer.StoresAll | source/3rd/lua-protobuf/pb.h:169-182 | what is stored is what the buffer contains exactly up to 2^31 bytes; from there on the 31-bit size has wrapped around and a front piece is left |
| PbBuffer.LargestCapacity | source/3rd/lua-protobuf/pb.h:725-728 | capacities reach 2988261580 bytes, more than a size can count |
| PbBuffer.WrapAround | source/3rd/lua-protobuf/pb.h:737-744 | 32 bytes behind 2^31 - 16 others: both appends report success, and 16 bytes are left |
| PbBuffer.Buffer.AddSlice | source/3rd/lua-protobuf/pb.h:737-744 | the bytes are stored behind the others, or nothing changes; the size is counted in 31 bits |
| PbBuffer.Buffer.AddVarint64 | source/3rd/lua-protobuf/pb.h:775-781 | the varint is stored behind the others, or nothing changes; the size is counted in 31 bits |
| PbBuffer.Buffer.AddVarint32 | source/3rd/lua-protobuf/pb.h:767-773 | the varint is stored behind the others, or nothing changes; the size is counted in 31 bits |
| PbBuffer.Buffer.AddBytes | source/3rd/lua-protobuf/pb.h:760-765 | the length and the bytes are stored behind the others, or nothing changes; the length is never cut; when the size wraps around between the two, the bytes go to the front |
| PbBuffer.Buffer.AddFixed | source/3rd/lua-protobuf/pb.h:783-807 | the little-endian bytes are stored behind the others, or nothing changes; the size is counted in 31 bits |
| PbBuffer.Buffer.Shift | source/3rd/lua-protobuf/pb.h:754-754 | the bytes arrive unharmed although the ranges overlap |
| PbBuffer.Buffer.AddLength | source/3rd/lua-protobuf/pb.h:746-758 | the bytes from a mark on get exactly their length in front of them, or nothing changes; with memory it fails exactly for a mark behind the end or a size that no capacity holds |
| WireFormat.SkipVarint | source/3rd/lua-protobuf/pb.h:583-589 | skips one varint of any length, or nothing |
| WireFormat.SkipSlice | source/3rd/lua-protobuf/pb.h:603-607 | skips len bytes, or nothing when they are not there |
| WireFormat.SkipBytes | source/3rd/lua-protobuf/pb.h:591-601 | skips a length and as many bytes, or nothing |
| WireFormat.ReadBytes | source/3rd/lua-protobuf/pb.h:533-545 | gives exactly the bytes behind a length, or fails and moves nothing |
| WireFormat.ReadGroup | source/3rd/lua-protobuf/pb.h:547-565 | gives exactly the body of the group that ends with the matching tag, or fails and moves nothing |
| WireFormat.SkipValue | source/3rd/lua-protobuf/pb.h:567-581 | skips one value of the tag's type, groups of any depth included, or nothing; for each of the eight types by WireTypes |
| WireFormat.SkipsOne | source/3rd/lua-protobuf/pb.h:567-581 | over the encoding of any field, the skipper goes exactly as far as its value, whatever follows |
| WireFormat.GroupRead | source/3rd/lua-protobuf/pb.h:547-565 | the group reader finds the end tag that belongs to the group and not one inside, and its body is what was written |
| WireFormat.BytesReached | source/3rd/lua-protobuf/pb.h:533-545 | behind a length prefix the body comes back exactly |
| WireFormat.NestedBody | source/3rd/lua-protobuf/pb.h:533-545 | the body of a nested message comes back exactly, and so does what follows it |
| WireFormat.WalkEncoded | source/3rd/lua-protobuf/pb.h:475-607 | a reader that takes tags and skips values finds every field of a message with exactly its value, in order |
| WireFormat.WriteField | source/3rd/lua-protobuf/pb.h:746-807 | when writing a tag and a value succeeds, it has appended exactly the field's encoding, which begins as FieldTags says, if and only if a size can count the bytes; it succeeds when there is memory and room |
| WireFormat.WriteValue | source/3rd/lua-protobuf/pb.h:746-807 | the same for the value alone |
| WireFormat.WriteMessage | source/3rd/lua-protobuf/pb.h:746-758 | a nested message written in place and given its length afterwards is the encoding of the message, under the same condition |
| WireFormat.WriteFields | source/3rd/lua-protobuf/pb.h:746-807 | writing all fields of a message appends exactly its encoding, under the same condition |
| WireFormat.WireTypes | source/3rd/lua-protobuf/pb.h:567-581 | which number is which wire type: how far a value is skipped for each of the eight types that a tag can have |
| WireFormat.EndTag | source/3rd/lua-protobuf/pb.h:551-559 | a group ends with a tag of type 4 and its own number; any other tag of type 4 makes it malformed |
| WireFormat.SpanExactly | source/3rd/lua-protobuf/pb.h:583-589 | a varint that is skipped ends with the first byte without the top bit, after however many bytes |
| WireFormat.FieldTags | source/3rd/lua-protobuf/pb.h:83-86 | the tag of a field is eight times its number and 0, 1, 2, 3 or 5 for its kind, written as a varint; a group ends with its number and 4 |
| WireFormat.WalkStops | source/3rd/lua-protobuf/pb.h:475-607 | the reader stops where no tag, or no value of its type, is |
| FieldDb.TakenOver | source/3rd/lua-protobuf/pb.h:1309-1315 | when a field takes over a name and a number, a live field is reached afterwards exactly when it is not among the displaced ones |
| FieldDb.StillIndexed | source/3rd/lua-protobuf/pb.h:1309-1315 | after that both indexes lead to live fields only, under their own keys, and every live field is reached |
| FieldDb.DisplacedSet | source/3rd/lua-protobuf/pb.h:1309-1313 | the displaced fields are different and live, so the count goes down by their number |
| FieldDb.TakenOut | source/3rd/lua-protobuf/pb.h:1318-1328 | deleting a field leaves every other live field reached and that one unreached |
| FieldDb.Type.constructor | source/3rd/lua-protobuf/pb.h:1231-1236 | a new type has no fields |
| FieldDb.Type.NewField | source/3rd/lua-protobuf/pb.h:1292-1316 | gives the field that both indexes have, or a new one that both reach; what it displaces is freed exactly once; failing changes no field |
| FieldDb.Type.TakeOver | source/3rd/lua-protobuf/pb.h:1304-1315 | field_count stays the number of live fields when one or two fields are displaced |
| FieldDb.Type.DelField | source/3rd/lua-protobuf/pb.h:1318-1328 | the field leaves both indexes where they lead to it, is freed once, and the count goes down by one; a field that is not the type's is left alone |
| FieldDb.Type.DelType | source/3rd/lua-protobuf/pb.h:1265-1290 | every live field is freed exactly once, whether two indexes reach it or one |
| FieldDb.Type.FreeNamed | source/3rd/lua-protobuf/pb.h:1269-1277 | the first loop frees the fields under a name and keeps the second loop from freeing them again |
| FieldDb.Type.FreeNumbered | source/3rd/lua-protobuf/pb.h:1278-1279 | the second loop frees exactly those that only a number reaches |
| NameTable.CalcHash | source/3rd/lua-protobuf/pb.h:984-991 | the loop computes the hash of the bytes |
| NameTable.HashOfOne | source/3rd/lua-protobuf/pb.h:984-991 | the hash of the empty name is 0, and that of "a" is 0x80 |
| NameTable.HashOfTwo | source/3rd/lua-protobuf/pb.h:984-991 | the hash of "ab" is 0x1429: the last byte goes in first |
| NameTable.SampledBytes | source/3rd/lua-protobuf/pb.h:987-990 | names of one length have one hash when they agree in the bytes that count: from 32 bytes on every second one from the end, from 64 on every third one, and so on |
| NameTable.TimesCounted | source/3rd/lua-protobuf/pb.h:1065-1088 | how often a run contains an operation is its multiplicity |
| NameTable.EntryIsMember | source/3rd/lua-protobuf/pb.h:1052-1063 | looking a name up under its hash finds an entry exactly when the table has one with these bytes |
| NameTable.OneEntry | source/3rd/lua-protobuf/pb.h:1018-1035 | the table never holds two entries with equal bytes |
| NameTable.AnyHash | source/3rd/lua-protobuf/pb.h:1097-1107 | looking a name up under any other hash finds the same entry or none |
| NameTable.Pushed | source/3rd/lua-protobuf/pb.h:1023-1033 | an entry with new bytes in front of its chain adds exactly that entry |
| NameTable.Unchained | source/3rd/lua-protobuf/pb.h:1037-1050 | unlinking an entry removes exactly that entry |
| NameTable.VisitedMore | source/3rd/lua-protobuf/pb.h:1003-1011 | the rehash loop meets an entry, and bytes, that it has not met before |
| NameTable.Balance | source/3rd/lua-protobuf/pb.h:1065-1088 | over a run that never deletes a name more often than it was new, a name has an entry exactly when it was new more often, and its count is the difference |
| NameTable.Names.constructor | source/3rd/lua-protobuf/pb.h:963-964 | an empty table |
| NameTable.Names.GetName | source/3rd/lua-protobuf/pb.h:1052-1063 | the walk along one chain gives the entry with that hash and these bytes |
| NameTable.Names.LookUp | source/3rd/lua-protobuf/pb.h:1090-1110 | through any cache, even a stale one, the lookup gives the entry that a lookup without a cache gives |
| NameTable.Names.Rehash | source/3rd/lua-protobuf/pb.h:1003-1011 | the new chains hold exactly the old entries, each in the chain of its hash |
| NameTable.Names.Resize | source/3rd/lua-protobuf/pb.h:993-1016 | a resize keeps the set of names; it fails only without memory or above the limit |
| NameTable.Names.NewEntry | source/3rd/lua-protobuf/pb.h:1018-1035 | an entry is added for bytes that have none; failing adds nothing |
| NameTable.Names.NewName | source/3rd/lua-protobuf/pb.h:1073-1088 | one more use of the name's entry, or a new entry with one use; no other entry changes |
| NameTable.Names.Use | source/3rd/lua-protobuf/pb.h:966-967 | one more use of that entry |
| NameTable.Names.Unlink | source/3rd/lua-protobuf/pb.h:1037-1050 | exactly that entry leaves the table |
| NameTable.Names.DelName | source/3rd/lua-protobuf/pb.h:1065-1071 | one use less; the entry leaves the table exactly with its last use |
| NameTable.Names.Replay | source/3rd/lua-protobuf/pb.h:1065-1088 | after any run of newname and delname, of any length, in which no count leaves its 16 bits, the entries are the names in use, each with the number of its uses |
| Rdict.Search | source/rbase/common/src/rdict.c:353-373 | the scan of a bucket stops at the entry of a stored key, and at no entry of another key |
| Rdict.Written | source/rbase/common/src/rdict.c:222-230 | writing where the scan stopped stores exactly that key and value and keeps buckets gap-free and without twins |
| Rdict.ClosedHas | source/rbase/common/src/rdict.c:289-296 | moving the last entry into the gap loses the removed entry only |
| Rdict.TakenOut | source/rbase/common/src/rdict.c:284-296 | removal with swap-with-last takes exactly that key out of the map and keeps buckets gap-free |
| Rdict.StoredSpread | source/rbase/common/src/rdict.c:127-153 | a table that stores a map has no bucket that more keys ask for than it has slots |
| Rdict.Overflows | source/rbase/common/src/rdict.c:136-146 | when a key meets a full bucket, the keys do not fit this number of buckets |
| Rdict.StopsEarly | source/rbase/common/src/rdict.c:204-213 | the scan passes other keys of the bucket only |
| Rdict.StopsBehind | source/rbase/common/src/rdict.c:204-213 | a scan for a key that is not stored passes exactly the keys that ask for its bucket |
| Rdict.FullCrowd | source/rbase/common/src/rdict.c:136-146 | a bucket is full exactly when as many keys ask for it as it has slots |
| Rdict.FewestBuckets | source/rbase/common/src/rdict.c:98-103 | the number of buckets is the smallest one with as many slots as asked for |
| Rdict.Tries | source/rbase/common/src/rdict.c:77-169 | how far the tries go: a third more than asked for, and when a bucket overflows, the next one asks for twice that and grows it, to 4 times it below 320000 and 64000 more than twice it from there on |
| Rdict.LastSlot | source/rbase/common/src/rdict.c:204-213 | a stored key is in the last slot of its bucket exactly when the scan for it ends there |
| Rdict.Overrun | source/rbase/common/src/rdict.c:204-207 | four calls on a new dictionary (keys 10, 21, 14, then a search for 32, two slots a bucket) make a scan run behind the table: that a search stays in the table is false |
| Rdict.VisitedMore | source/rbase/common/src/rdict.c:388-410 | the next entry of an iteration is one that was not given before |
| Rdict.VisitedAll | source/rbase/common/src/rdict.c:388-413 | at the end all entries have been given |
| Rdict.Dict.constructor | source/rbase/common/src/rdict.c:44-75 | a new dictionary is empty and has room for as many entries as asked for, or for the usual number |
| Rdict.Dict.Scan | source/rbase/common/src/rdict.c:204-213 | a scan that only the key or an empty slot stops leaves the table exactly when the key is not stored and every bucket from its own to the last is full |
| Rdict.Dict.Find | source/rbase/common/src/rdict.c:353-373 | find leaves the table under exactly that condition, and gives the value of the key otherwise, the one place beside the buckets serving the null key |
| Rdict.Dict.MoveAll | source/rbase/common/src/rdict.c:123-153 | rehashing into a given number of buckets succeeds exactly when no bucket is asked for by more keys than it has slots, and then stores the same map, with the entries put in one by one |
| Rdict.Dict.Rehash | source/rbase/common/src/rdict.c:77-169 | the retries end in the first table of those that Tries lists that takes all keys, with the map unchanged, or fail, with nothing changed, exactly when none does within the limit; a result beyond the first try has at least twice that capacity, grown once more |
| Rdict.Dict.Expand | source/rbase/common/src/rdict.c:171-185 | the same, starting from the grown capacity: twice as much below 640000 and 64000 more from there on, and a third more than that |
| Rdict.Dict.Add | source/rbase/common/src/rdict.c:187-236 | add stores the key; for a new key it is said exactly when a scan leaves the table, when no larger table takes all keys, and how many buckets there are in the end; for a stored key the same, from its places in this table and in those it moves to: in the last slot of a bucket it asks for a larger table; a bucket with room needs no rehash; the capacity after a rehash is bounded from below in numbers |
| Rdict.Dict.Remove | source/rbase/common/src/rdict.c:238-299 | remove takes exactly the key out and says whether it was there |
| Rdict.Dict.CloseGap | source/rbase/common/src/rdict.c:289-296 | the loop moves the last entry of the bucket into the gap |
| Rdict.Dict.Next | source/rbase/common/src/rdict.c:388-413 | the iterator gives the null key's entry first and then an entry that was not given before, until none is left |
| Rdict.Dict.VisitAll | source/rbase/common/src/rdict.c:388-413 | an iteration gives every entry exactly once |
| Rpool.NewBlock | source/rbase/common/include/rpool.h:101-134 | a new block's free list runs through all its items |
| Rpool.PopBlock | source/rbase/common/include/rpool.h:232-233 | taking the head leaves a free list of free_count distinct items of the block |
| Rpool.PushBlock | source/rbase/common/include/rpool.h:259-261 | giving an item in use back leaves such a list |
| Rpool.TakenFrom | source/rbase/common/include/rpool.h:207-237 | the item handed out was not in use, and afterwards it and the items in use before are in use |
| Rpool.GivenTo | source/rbase/common/include/rpool.h:259-262 | afterwards exactly that item is not in use any more |
| Rpool.BlockAdded | source/rbase/common/include/rpool.h:217-229 | a new block changes nothing about what is in use |
| Rpool.BlockDropped | source/rbase/common/include/rpool.h:269-276 | releasing a block whose items are all free changes nothing about what is in use |
| Rpool.AllFree | source/rbase/common/include/rpool.h:267-276 | a block whose free_count is its total has no item in use |
| Rpool.FreeSum | source/rbase/common/include/rpool.h:209-216 | total_free is zero exactly when every block's list is empty |
| Rpool.Pool.constructor | source/rbase/common/include/rpool.h:135-163 | a new pool has one block, all of it free |
| Rpool.Pool.Get | source/rbase/common/include/rpool.h:202-237 | get never hands out an item in use, fails only without a free item and without memory, and keeps capacity and total_free the sums over the blocks |
| Rpool.Pool.AddBlock | source/rbase/common/include/rpool.h:217-229 | the new block goes behind the first one and brings a free item |
| Rpool.Pool.Free | source/rbase/common/include/rpool.h:238-292 | free takes exactly that item out of use and refuses addresses of no block; the block is released exactly when it is not the first, all of it is free and more than its size is free elsewhere |
| Rpool.Pool.DropBlock | source/rbase/common/include/rpool.h:269-276 | a released block takes its items out of capacity and total_free |
| Utf.UnitsOfUcs4 | source/3rd/win-iconv/win_iconv.c:1048-1072 | one or two UTF-16 units become a scalar value and come back as the same units; which value it is, PairsInOrder and SingleUnits say |
| Utf.Ucs4OfUnits | source/3rd/win-iconv/win_iconv.c:1048-1072 | every scalar value comes back from its units, so with PairsInOrder there is one such pairing only |
| Utf.PairsInOrder | source/3rd/win-iconv/win_iconv.c:1053-1053 | surrogate pairs ordered by high and then low unit have code points in the same order, from 0x10000 to 0x10FFFF |
| Utf.SingleUnits | source/3rd/win-iconv/win_iconv.c:1061-1064 | any other unit is its own code point |
| Utf.NarrowLayout | source/3rd/win-iconv/win_iconv.c:1481-1566 | the bytes of each UTF-16 unit, the highest first in the big-endian codepage and the lowest first in the other |
| Utf.WideLayout | source/3rd/win-iconv/win_iconv.c:1634-1653 | the same for the four bytes of the code point in UTF-32 |
| Utf.Marks | source/3rd/win-iconv/win_iconv.c:1534-1538 | the bytes of the mark in each of the four codepages |
| Utf.Unreadable | source/3rd/win-iconv/win_iconv.c:1481-1520 | what is not a character, in the middle of a document: EINVAL exactly when units or half a pair are missing, EILSEQ exactly for a lone surrogate or a word that is no code point |
| Utf.ReadMore | source/3rd/win-iconv/win_iconv.c:1472-1612 | a character, mark or malformed sequence that was recognised is recognised in the same way when more bytes follow |
| Utf.InputSplit | source/3rd/win-iconv/win_iconv.c:838-918 | with room for everything, cutting the input anywhere changes neither the output nor the place and kind of an error |
| Utf.OutputSplit | source/3rd/win-iconv/win_iconv.c:895-911 | a full output loses nothing: the call stops at a whole character with both modes restored, and going on gives what would have come at once |
| Utf.OneCall | source/3rd/win-iconv/win_iconv.c:838-918 | a call with any room and then one with the rest give what one call with everything gives |
| Utf.AnySchedule | source/3rd/win-iconv/win_iconv.c:838-918 | however input and output space are dealt out over calls, the output, the input place and kind of an error, and both modes are those of one call with everything; bytes of calls that were not made are simply left |
| Utf.ErrorStays | source/3rd/win-iconv/win_iconv.c:838-864 | malformed input is found again, with nothing consumed or written, by any later call |
| Utf.RoomKept | source/3rd/win-iconv/win_iconv.c:895-911 | a call never writes more than there is room for, and one that reports E2BIG has no room for the next character |
| Utf.OneByteLeftOut | source/3rd/win-iconv/win_iconv.c:847-852 | with //IGNORE one byte at a time is left out, and a well-formed pair is not |
| Utf.MarkFirst | source/3rd/win-iconv/win_iconv.c:1525-1538 | a document begins with the mark exactly when its form has one, and goes on with the text |
| Utf.CutCharacter | source/3rd/win-iconv/win_iconv.c:847-859 | with //IGNORE the claim is false: a cut character is left out, so the result depends on the cut |
| Utf.SplitsWellExactly | source/3rd/win-iconv/win_iconv.c:838-918 | cutting the input never matters exactly when //IGNORE is not set |
| Utf.ReadWritten | source/3rd/win-iconv/win_iconv.c:1472-1655 | a character that was written is read back in the byte order that the mark has settled |
| Utf.ConvertsText | source/3rd/win-iconv/win_iconv.c:1472-1655 | text without a mark converts completely, from the middle of a document too |
| Utf.ConvertsDocument | source/3rd/win-iconv/win_iconv.c:1472-1655 | every well-formed document in any of the forms converts completely into the same text in any other one, so there and back is the identity |
| Utf.ConvertsSwapped | source/3rd/win-iconv/win_iconv.c:1488-1502 | so does a document whose mark says the other byte order |
| Utf.Iconv.Convert | source/3rd/win-iconv/win_iconv.c:838-918 | the loop in place does what the specification of a call says, for every input, output space and mode: the code points and bytes by PairsInOrder, NarrowLayout and WideLayout, the errors by Unreadable and RoomKept |
| FdIndex.Removed | source/3rd/protobuf-c-rpc-master/protobuf-c-rpc/protobuf-c-rpc-dispatch.c:444-467 | the last place moves into the gap: the descriptor is not watched any more and every other one is watched as before |
| FdIndex.Added | source/3rd/protobuf-c-rpc-master/protobuf-c-rpc/protobuf-c-rpc-dispatch.c:346-368 | a descriptor that had no place gets one, and every other one is watched as before |
| FdIndex.Changed | source/3rd/protobuf-c-rpc-master/protobuf-c-rpc/protobuf-c-rpc-dispatch.c:523-538 | only events and callback of that descriptor change |
| FdIndex.CommonEvents | source/3rd/protobuf-c-rpc-master/protobuf-c-rpc/protobuf-c-rpc-dispatch.c:607-608 | the common events are a part of both sets, and every readable or writable event that is in both is among them |
| FdIndex.NoneInBoth | source/3rd/protobuf-c-rpc-master/protobuf-c-rpc/protobuf-c-rpc-dispatch.c:607-609 | no events are those in both exactly when neither the readable nor the writable event is in both |
| FdIndex.LastDecides | source/3rd/protobuf-c-rpc-master/protobuf-c-rpc/protobuf-c-rpc-dispatch.c:470-563 | the last action on a descriptor decides how it is watched, and without one it is watched as before |
| FdIndex.CalledEvents | source/3rd/protobuf-c-rpc-master/protobuf-c-rpc/protobuf-c-rpc-dispatch.c:593-611 | event by event: a call brings exactly the events that are both wanted by then and reported, to the callback of the last watch, for a descriptor not closed since; no call for an open, watched descriptor means that no event is both |
| FdIndex.Dispatch.constructor | source/3rd/protobuf-c-rpc-master/protobuf-c-rpc/protobuf-c-rpc-dispatch.c:307-315 | nothing is watched |
| FdIndex.Dispatch.Ensure | source/3rd/protobuf-c-rpc-master/protobuf-c-rpc/protobuf-c-rpc-dispatch.c:317-343 | the map covers the descriptor and nothing else changes |
| FdIndex.Dispatch.Deallocate | source/3rd/protobuf-c-rpc-master/protobuf-c-rpc/protobuf-c-rpc-dispatch.c:444-467 | exactly that descriptor is not watched any more |
| FdIndex.Dispatch.WatchFd | source/3rd/protobuf-c-rpc-master/protobuf-c-rpc/protobuf-c-rpc-dispatch.c:470-538 | exactly that descriptor is watched as asked, or not any more |
| FdIndex.Dispatch.FdClosed | source/3rd/protobuf-c-rpc-master/protobuf-c-rpc/protobuf-c-rpc-dispatch.c:548-563 | the descriptor is not watched, and is marked as closed since |
| FdIndex.Dispatch.Begin | source/3rd/protobuf-c-rpc-master/protobuf-c-rpc/protobuf-c-rpc-dispatch.c:593-599 | for the descriptors that have events nothing has been closed since |
| FdIndex.Dispatch.Deliver | source/3rd/protobuf-c-rpc-master/protobuf-c-rpc/protobuf-c-rpc-dispatch.c:600-611 | one turn: the callback called is the one registered now, for exactly the events that are both wanted now and reported, and none for a descriptor marked as closed or when no event is both |
| FdIndex.Dispatch.Act | source/3rd/protobuf-c-rpc-master/protobuf-c-rpc/protobuf-c-rpc-dispatch.c:470-563 | any sequence of watching and closing leaves for every descriptor what the last action on it says, and marks the closed ones |
| FdIndex.Dispatch.DeliverAll | source/3rd/protobuf-c-rpc-master/protobuf-c-rpc/protobuf-c-rpc-dispatch.c:593-611 | a whole delivery with any watching and closing between its turns: each turn calls the callback registered by then for the events both wanted by then and reported (CalledEvents), and none for a descriptor closed since the delivery began, even when it is watched again |

## Left out

- The plain RBTREE family (gskrbtreemacros.h, lines 135-378): it is the counted family with the counts erased; its insertion loop tests for the top where the counted one tests for a missing parent.
- RbcTree.RbcTree.Replace: writes the parent links of the two children before it refreshes the counts; the source does it in the other order, and neither looks at what the other writes.
- RbcTree.Node: the two child links are one pair, so that a side can be a parameter; a count is unbounded, so the wrap-around of a 32-bit count is not modelled.
- PbTable.Table.Resize: sizes are counted in entries and not in bytes, a failing allocation is the limit; the tombstones that deletion leaves in a table are not modelled.
- ClosureTable.Table.Grow: what the source overwrites once the doubled size has wrapped around to 0.
- Framing: packing and unpacking are left abstract as predicates on bytes.
- RpcConnection: requests before the connection is up, reconnecting, closures and services that call back into the client or the decode loop, answers after the connection was closed (which free their request twice), and the proxy pipe of threaded servers.
- RpcClient.Client.Readable: what a client does after a tripped assertion, or after calling a closure that is not there.
- RpcServer.ServerConnection.Readable: what a second failure does to a connection that has been freed.
- RpcServer.ServerConnection: the pending list is a sequence (the linked list itself is `LinkedList.List`), and requests are not recycled.
- DataBuffer: the block of a fragment is a sequence field; recycling of fragments, writev and the search functions, one of which ignores where a fragment starts, are left out.
- MergeSort.StackSort: lists shorter than 2^64; the comparator must be a total preorder, which the macro takes for granted. The queue and stack macros are left out.
- Varint: a bitwise or of numbers without common bits is an addition; the first four bytes of the two unrolled readers share one method, so do the lines of its middle part, and an unrolled fixed-width store is a loop.
- PbBuffer.Buffer: the inline buffer and the heap buffer are one array, and a failing reallocation is a flag.
- WireFormat.WriteField: what a field of several parts leaves in the buffer once the 31-bit size has wrapped around on the way is not stated; for one append it is (`PbBuffer.Buffer.AddSlice`).
- FieldDb: the two tables are finite maps whose entries may lack a field, visited in any order; oneof entries, the sorted copy (which assumes that every counted field is in the number index), names' reference counts and the table of types are left out.
- NameTable: chains are sequences, names are shorter than 2^16 bytes and used fewer than 2^16 times, as the entry's bit fields demand; the branch of pb_newname with a cache is asserted away in the source.
- Rdict: nothing is said of what follows a scan that leaves the table; a bucket has at least two slots; the scale factor 0.75 is exact; capacities do not wrap; a limit on the table size stands for the allocator; the hooks that copy and free keys and values are left out.
- Rpool: the list of blocks is a sequence, the allocator is assumed to give blocks away from each other, and freeing an item twice, or an address inside a block that is not in use, is excluded; the chain of pools is left out.
- Utf: the compatibility tables and all other code pages.
- FdIndex: the list of changes, whose deallocation reads the descriptor at the wrong place, the growth of the parallel arrays, timers, idle functions and polling.
- Timers of the dispatcher: the published timeout is the least one only on return from dispatch, not right after adding a timer.
- Sockets, files, threads, logging, the Lua stack plumbing of pb.c, cmocka, the array, list and buffer wrappers of rbase, and the string search of rstring.c, whose failure table loop can stop making progress.
