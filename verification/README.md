# Verified models of a user-space network stack

This project models the data structures and protocols of the repository that carry its guarantees, and proves
what they keep. `dafny verify dfyconfig.toml` checks all of it.

## What is modelled

* **Red-black and splay trees** (`RbModel`, `RbEdits`, `RbColors`, `RbTree`, `SplayModel`, `Splay`, `KeySets`). The macros of
  `nty_tree.h` run on heap objects with their left, right, parent and colour fields, in the order in which the macros
  write them. A ghost tree with a hole (a context and a subtree) says where each loop stands, and a search-style
  function says which links that tree prescribes for every key. The colour fix-ups keep exactly one violation at the
  hole. The splay loop keeps one context for the left tree and one for the right tree. The item type is the epoll
  item for both trees; keys are compared as `sockfd` is.
* **Epoll** (`EpollSpec`, `Epoll`). The index is the red-black tree above, the ready list a sequence. Each call is one
  atomic step; `rdy` and `rdnum` start at 0, which the allocation in the code does not ensure.
* **TCP** (`TcpSpec`, `TcpRuns`, `TcpEffects`, `TcpExamples`, `Tcp`). The table of control blocks with the newest in front, the
  handlers of `ng_tcp_process` and the socket calls. A stream carries ghost fields for its history: what it received,
  and what had been received when each acknowledgement was queued. `TcpEffects` says field by field what each segment
  and call does, and what this adds up to over runs. The handshake accepts any ACK: the comparison of the
  acknowledgement number in the code has an empty branch.
* **Two virtqueues** (`Rings`, `QueueSpec`, `Virtqueue`; `VringModel`, `TxSpec`, `VringC`, `VringRounds`, `VringLayout`).
  Ring size and indices are symbolic. `virtio_test.py` refines a bounded queue under any interleaving of whole producer
  and consumer rounds. `vring.c` is a client and a server on shared arrays with 16-bit indices; it stops being usable
  once the used index reaches the ring size, because the reclaim loop compares a reduced index with a free-running one.
  A packet of 1508 to 1528 bytes is accepted and then dropped without a used entry, while the used index still counts
  it; `VringRounds` says exactly when this costs a descriptor. From 1519 bytes on it also overwrites the header of the
  next buffer. A new shared region reads as zeros.
* **DNS** (`DnsNames`, `DnsSpec`, `Dns`). Names, messages and the moving buffer pointer. Responses are read back by a
  reader written from RFC 1035, not from the code. Two findings: a byte up to 63 in a name is decoded as a dot, so names
  with digits or hyphens do not survive and come back garbled, and therefore the server never finds the one name that it
  knows.
* **Checksum, bit counting and the packet window** (`Checksum`, `BitCount`, `Window`).

Sockets, locks, condition variables, printing and shared-memory calls are left out; a call that would block is a step
that changes nothing. Allocation succeeds and rings of fragments do not overflow. Random numbers, descriptors from the
bitmap and the outcome of the TCP checksum test are parameters. Integer widths are written out where they matter:
32-bit sequence numbers and totals, 16-bit ring indices, the 64-bit word of the bit count.

## Model

| member | source | states |
|---|---|---|
| RbTree.RbHead.RotateLeft | dpdk-code/14_tcp_concurrency/nty_tree.h:338-356 | a left rotation at any item turns the linked tree into the rotated one, parent links included, and moves no item past another |
| RbTree.RbHead.RotateRight | dpdk-code/14_tcp_concurrency/nty_tree.h:359-377 | the mirror image |
| RbTree.RbHead.InsertColorStep | dpdk-code/14_tcp_concurrency/nty_tree.h:406-442 | one round of the insertion fix-up keeps a tree with a single red-red violation and moves that violation strictly towards the root, or removes it |
| RbTree.RbHead.InsertColor | dpdk-code/14_tcp_concurrency/nty_tree.h:403-444 | the insertion fix-up ends, and from one violation it makes a red-black tree with the same items in the same order |
| RbTree.RbHead.FindSlot | dpdk-code/14_tcp_concurrency/nty_tree.h:597-607 | the descent finds the item with the key, or else the empty place where the key belongs |
| RbTree.RbHead.Insert | dpdk-code/14_tcp_concurrency/nty_tree.h:592-619 | a present key returns its item and changes nothing; a new key yields a valid red-black tree with exactly one more item, in its place in the order |
| RbTree.RbHead.RemoveColorStep | dpdk-code/14_tcp_concurrency/nty_tree.h:450-519 | one round of the removal fix-up keeps a tree that lacks a single black and moves the lack up, or repairs it |
| RbTree.RbHead.RemoveColor | dpdk-code/14_tcp_concurrency/nty_tree.h:446-522 | the removal fix-up ends, and repairs the one missing black without moving an item |
| RbTree.RbHead.Successor | dpdk-code/14_tcp_concurrency/nty_tree.h:534-537 | the leftmost item of the right subtree is the next item in the order |
| RbTree.RbHead.Relink | dpdk-code/14_tcp_concurrency/nty_tree.h:533-572 | an item with two children is replaced by its successor, links and all |
| RbTree.RbHead.Remove | dpdk-code/14_tcp_concurrency/nty_tree.h:524-589 | for every member of every valid tree: the result is a valid red-black tree whose order is the old one without that member |
| RbTree.RbHead.Find | dpdk-code/14_tcp_concurrency/nty_tree.h:622-636 | finds the item with the key if and only if there is one, and visits no more items than the tree is high |
| RbTree.RbHead.NFind | dpdk-code/14_tcp_concurrency/nty_tree.h:639-657 | returns the least item at or above the key, visiting no more items than the tree is high |
| RbTree.RbHead.Next | dpdk-code/14_tcp_concurrency/nty_tree.h:660-679 | returns the item behind the given one in the order, or null at the end |
| RbTree.RbHead.Prev | dpdk-code/14_tcp_concurrency/nty_tree.h:682-701 | returns the item before the given one, or null at the start |
| RbTree.RbHead.ThereAndBack | dpdk-code/14_tcp_concurrency/nty_tree.h:660-701 | RB_PREV undoes RB_NEXT |
| RbTree.RbHead.BackAndThere | dpdk-code/14_tcp_concurrency/nty_tree.h:660-701 | RB_NEXT undoes RB_PREV |
| RbTree.RbHead.MinMax | dpdk-code/14_tcp_concurrency/nty_tree.h:703-716 | the first or the last item of the order |
| RbTree.RbHead.ForEach | dpdk-code/14_tcp_concurrency/nty_tree.h:730-733 | the walk from the minimum through RB_NEXT visits every item once, in strictly increasing order, and ends |
| RbTree.RbHead.WalkBound | dpdk-code/14_tcp_concurrency/nty_tree.h:622-657 | a walk that visits v of n items satisfies 2^v <= (n+1)^2 |
| RbColors.HeightBound | dpdk-code/14_tcp_concurrency/nty_tree.h:403-522 | a red-black tree with n items has a height of at most 2 log2(n+1) |
| RbColors.PlugColors | dpdk-code/14_tcp_concurrency/nty_tree.h:403-522 | the whole is a red-black tree exactly when its two parts around a hole fit together: how a violation is kept local |
| RbColors.InsertRecolored | dpdk-code/14_tcp_concurrency/nty_tree.h:411-416 | recolouring the uncle moves the one red-red violation two levels up |
| RbColors.InsertRotated | dpdk-code/14_tcp_concurrency/nty_tree.h:417-424 | the closing rotation removes the violation |
| RbColors.RemoveSiblingRed | dpdk-code/14_tcp_concurrency/nty_tree.h:454-458 | the rotation for a red sibling keeps the one lack of black, now with a black sibling |
| RbColors.RemoveSiblingBlack | dpdk-code/14_tcp_concurrency/nty_tree.h:459-465 | recolouring the sibling moves the lack one level up |
| RbColors.RemoveNearRed | dpdk-code/14_tcp_concurrency/nty_tree.h:467-476 | the inner rotation makes the far nephew red |
| RbColors.RemoveFarRed | dpdk-code/14_tcp_concurrency/nty_tree.h:477-483 | the closing rotation supplies the missing black |
| RbModel.RotLCoherent | dpdk-code/14_tcp_concurrency/nty_tree.h:338-356 | the four fields that the macro writes are exactly those by which the links of the rotated tree differ |
| RbEdits.RenameCoherent | dpdk-code/14_tcp_concurrency/nty_tree.h:553-564 | copying the field block of the removed item and redirecting its three neighbours puts the successor in its place |
| RbEdits.SpliceCoherent | dpdk-code/14_tcp_concurrency/nty_tree.h:541-550 | redirecting one parent and one child takes an item with at most one child out |
| KeySets.Both | dpdk-code/14_tcp_concurrency/nty_tree.h:127-267 | any sequence of insertions, removals and searches gets the same answers from the red-black tree, the splay tree and a plain set of keys |
| Splay.SplayHead.Splay | dpdk-code/14_tcp_concurrency/nty_tree.h:202-234 | for every non-empty search tree and key: the order is unchanged, and the root has the key or nothing lies between it and the key; the loop ends because the middle tree shrinks |
| Splay.SplayHead.StepLeft | dpdk-code/14_tcp_concurrency/nty_tree.h:211-220 | one round to the left keeps left tree, middle tree and right tree in order together, with a smaller middle tree |
| Splay.SplayHead.StepRight | dpdk-code/14_tcp_concurrency/nty_tree.h:221-231 | one round to the right |
| Splay.SplayHead.RotateRight | dpdk-code/14_tcp_concurrency/nty_tree.h:86-90 | a rotation of the middle tree changes no order |
| Splay.SplayHead.LinkLeft | dpdk-code/14_tcp_concurrency/nty_tree.h:98-102 | the root of the middle tree becomes the least item of the right tree |
| Splay.SplayHead.LinkRight | dpdk-code/14_tcp_concurrency/nty_tree.h:104-108 | the root of the middle tree becomes the greatest item of the left tree |
| Splay.SplayHead.Assemble | dpdk-code/14_tcp_concurrency/nty_tree.h:110-115 | putting the three trees together restores one search tree with the same order |
| Splay.SplayHead.Find | dpdk-code/14_tcp_concurrency/nty_tree.h:125-134 | finds the item with the key if and only if there is one, and keeps the items |
| Splay.SplayHead.Insert | dpdk-code/14_tcp_concurrency/nty_tree.h:159-180 | a present key returns its item; a new one is added and nothing else changes |
| Splay.SplayHead.Remove | dpdk-code/14_tcp_concurrency/nty_tree.h:182-200 | the item with the key goes, and exactly that one; the argument is returned |
| Splay.SplayHead.JoinSubtrees | dpdk-code/14_tcp_concurrency/nty_tree.h:191-196 | splaying the left subtree once more leaves its root without a right child, so the right subtree can hang there |
| SplayModel.NoneAbove | dpdk-code/14_tcp_concurrency/nty_tree.h:193-195 | why there is no right child after that second splay |
| Splay.SplayHead.MinMax | dpdk-code/14_tcp_concurrency/nty_tree.h:236-267 | with a non-zero direction the least or the greatest item comes to the root |
| Splay.SplayHead.Next | dpdk-code/14_tcp_concurrency/nty_tree.h:136-147 | returns the item behind the given one in the order |
| SplayModel.AssembledItems | dpdk-code/14_tcp_concurrency/nty_tree.h:110-115 | in-order(left) ++ in-order(middle) ++ in-order(right) is the order of the assembled tree |
| SplayModel.NearAssembled | dpdk-code/14_tcp_concurrency/nty_tree.h:210-233 | the exit conditions of the loop mean that no key lies between the root and the searched one |
| EpollSpec.StepKeepsInv | dpdk-code/14_tcp_concurrency/tcp_concurrency.c:2284-2450 | a step keeps index and ready list in agreement if and only if it does not delete a ready entry |
| EpollSpec.RunKeepsInv | dpdk-code/14_tcp_concurrency/tcp_concurrency.c:2284-2539 | so does every run without such a deletion |
| EpollSpec.DeletedButReported | dpdk-code/14_tcp_concurrency/tcp_concurrency.c:2408-2431 | a run that deletes a ready entry and then reports it |
| EpollSpec.WaitReports | dpdk-code/14_tcp_concurrency/tcp_concurrency.c:2519-2534 | a wait reports min(rdnum, maxevents) distinct registered descriptors, the newest ready first, and marks them not ready |
| EpollSpec.EventsAre | dpdk-code/14_tcp_concurrency/tcp_concurrency.c:2519-2534 | the events that a wait copies out are those registered for the reported descriptors, in list order |
| EpollSpec.WaitIs | dpdk-code/14_tcp_concurrency/tcp_concurrency.c:2519-2534 | a wait takes the first entries off the list, clears their ready marks, and changes nothing else |
| EpollSpec.AgainEffect | dpdk-code/14_tcp_concurrency/tcp_concurrency.c:2293-2296 | a callback for a ready entry only adds its event bits |
| EpollSpec.ModBits | dpdk-code/14_tcp_concurrency/tcp_concurrency.c:2439-2440 | a modification sets the given bits and those for errors and hang-ups, and keeps the data |
| EpollSpec.RunConserves | dpdk-code/14_tcp_concurrency/tcp_concurrency.c:2284-2539 | over every run, what was readied is what was reported plus what is still listed, as multisets |
| EpollSpec.ReadyUntilReported | dpdk-code/14_tcp_concurrency/tcp_concurrency.c:2284-2539 | a readied descriptor stays listed until it is reported |
| Epoll.EventPoll.Callback | dpdk-code/14_tcp_concurrency/tcp_concurrency.c:2284-2311 | an unknown descriptor gives -1 and no change; a ready one gets the new event bits; any other is marked ready and goes to the head of the list with the bits added, and the count grows by one |
| Epoll.EventPoll.CtlAddItem | dpdk-code/14_tcp_concurrency/tcp_concurrency.c:2380-2406 | with RB_FIND and RB_INSERT: a new descriptor is registered with the whole event, not ready; a present one gives -1 and no change |
| Epoll.EventPoll.CtlDelItem | dpdk-code/14_tcp_concurrency/tcp_concurrency.c:2408-2431 | a present descriptor leaves the index, and the list stays as it is; an absent one gives -1; agreement is kept for entries that are not ready |
| Epoll.EventPoll.CtlModItem | dpdk-code/14_tcp_concurrency/tcp_concurrency.c:2433-2446 | a present descriptor gets the events and the two error bits and keeps its data and readiness; an absent one gives -1 |
| Epoll.EventPoll.Ctl | dpdk-code/14_tcp_concurrency/tcp_concurrency.c:2372-2450 | case by case for each operation: result and new index for present and absent descriptors, a missing event and an unknown operation |
| Epoll.EventPoll.Wait | dpdk-code/14_tcp_concurrency/tcp_concurrency.c:2517-2538 | the first min(rdnum, maxevents) descriptors leave the list and are no longer ready, and the events registered for them are copied out in list order |
| Epoll.EventPoll.TreeSize | dpdk-code/14_tcp_concurrency/tcp_concurrency.c:2404-2428 | rbcnt is the number of items in the tree |
| Virtqueue.Vring.PutRing | virtio-vhost/virtio_test.py:88-103 | accepts exactly if a descriptor is free and the flag is off; the flag stays right unless the last free descriptor is taken while consumed ones wait to be reclaimed |
| Virtqueue.Vring.GetRing | virtio-vhost/virtio_test.py:105-128 | copies out what flag and indices tell it to; unless all descriptors are free, these are the pending packets, in order, if and only if the flag is right, and then all their descriptors become consumed |
| Virtqueue.Vring.DetachBuf | virtio-vhost/virtio_test.py:130-139 | both branches: one or two descriptors go to the front of the free list |
| Virtqueue.Vring.FreeUsedIndex | virtio-vhost/virtio_test.py:144-159 | reclaims every consumed descriptor once; equal indices are resolved as none or a full ring, wrongly only under a wrong flag |
| Virtqueue.Vring.Produce | virtio-vhost/virtio_test.py:161-168 | a producer round accepts a packet if and only if fewer than ring_size are pending |
| Virtqueue.Vring.constructor | virtio-vhost/virtio_test.py:45-86 | a new ring is empty and all its descriptors are free |
| Virtqueue.Vring.OneOwner | virtio-vhost/virtio_test.py:67-86 | the chain from free_head is the free list of free_num entries, every descriptor has exactly one owner, and skb_data marks those not free |
| Virtqueue.Vring.ChainDistinct | virtio-vhost/virtio_test.py:130-139 | no descriptor is twice in the free list |
| Virtqueue.Interleave | virtio-vhost/virtio_test.py:161-174 | every interleaving of producer and consumer rounds refines a bounded FIFO queue; delivered ++ pending == accepted; the counters count |
| Virtqueue.HalfRounds | virtio-vhost/virtio_test.py:88-174 | half rounds in any order in which the consumer never meets a wrong flag: delivered ++ pending == accepted, and one more round of the consumer delivers what is pending if and only if no put took the last free descriptor while consumed ones waited |
| Virtqueue.TornRound | virtio-vhost/virtio_test.py:161-168 | a consumer round between the two halves of a producer round makes the flag wrong, and the next consumer round delivers the packet of before a second time |
| QueueSpec.ExactlyOnceInOrder | virtio-vhost/virtio_test.py:88-128 | over every run delivered ++ pending == accepted, and never more than ring_size are pending |
| QueueSpec.AcceptedPart | virtio-vhost/virtio_test.py:88-103 | what is accepted is the offered sequence with the dropped packets left out, in order |
| QueueSpec.NoDropIff | virtio-vhost/virtio_test.py:88-103 | nothing is dropped if and only if the consumer runs at least once in ring_size packets |
| QueueSpec.ReadsAllIff | virtio-vhost/virtio_test.py:105-112 | the consumer reads exactly what is pending if and only if loop_flag marks exactly the full ring |
| QueueSpec.HalfOnce | virtio-vhost/virtio_test.py:88-174 | over every such run of half rounds delivered ++ pending == accepted |
| QueueSpec.PatientIff | virtio-vhost/virtio_test.py:88-103 | the flag is right after such a run if and only if no put of it was of that kind |
| QueueSpec.WrongForever | virtio-vhost/virtio_test.py:88-174 | a wrong flag stays wrong: only runs without another consumer round stay exactly-once |
| VringC.Vring.PutVring | vring_test/vring.c:129-178 | a packet goes, behind ten zero bytes, to the address of the first free descriptor, which becomes the last available one; a packet longer than the buffer is refused; no owner changes otherwise |
| VringC.Vring.FreeVring | vring_test/vring.c:180-194 | the descriptor becomes the head of the free list with its full length |
| VringC.Vring.ProcessUsedVring | vring_test/vring.c:196-209 | frees the used entries in order, as long as the used index is below the ring size; there is a proper free list afterwards if and only if every descriptor had exactly one owner before |
| VringC.Vring.ProcessDesc | vring_test/vring.c:211-290 | the handler gets the bytes gathered along any finite chain, without the ten header bytes, with a length that is theirs if and only if a whole header was gathered, and wraps round otherwise; the header passes its check if and only if all its bytes are 0; if nothing fits, nothing is put on the used ring |
| VringC.Vring.ProcessAvailVring | vring_test/vring.c:292-318 | the handler gets, in put order, exactly the packets that pass the length test, and the headers are checked as they stand in the buffers; the published used index counts the others too, whose used entries stay as they were; each descriptor keeps one owner if and only if the entries name the descriptors taken |
| VringC.Vring.OneOwner | vring_test/vring.c:129-209 | each descriptor is in exactly one of the free list, the available part and the used part |
| VringC.Transmit | vring_test/vring.c:129-318 | every legal interleaving of put, serve and reclaim, for packets of any size: handled ++ the passing part of pending == the passing part of accepted; free, pending and used descriptors are those of the model, also after dropped packets; all headers pass their check if no accepted packet is longer than 1518 bytes |
| VringRounds.OneRound | vring_test/vring.c:129-318 | put, serve and reclaim of one packet leave a proper free list if and only if it is refused, or passes the length test, or the stale used entry happens to name its descriptor |
| VringRounds.FirstRound | vring_test/vring.c:129-318 | on a new ring, any packets put, served and reclaimed leave a proper free list if and only if all accepted ones but the first pass the length test |
| VringRounds.LostDescriptor | vring_test/vring.c:202-315 | a small packet and one of 1508 to 1528 bytes: descriptor 0 is freed twice and becomes its own successor, and no free list of all descriptors exists |
| VringRounds.LuckyPacket | vring_test/vring.c:202-315 | the second of them alone on a new ring does no harm |
| VringRounds.LostHeader | vring_test/vring.c:149-168 | a packet of 1519 to 1528 bytes overwrites the front of the header of the next buffer, whose packet is still handed on whole; that header passes its check only if the bytes that cover it are 0 |
| VringLayout.WritesInsideIff | vring_test/vring.c:141-166 | what is written for a packet stays inside its buffer if and only if it is refused or fits with its header |
| VringModel.PutKeepsIff | vring_test/vring.c:149-166 | a put leaves the other buffers as they are if and only if the packet fits with its header, or what is longer is what stood there |
| VringLayout.WritesHeaderOnly | vring_test/vring.c:26-57 | otherwise the at most 10 bytes more fall on the header of the next buffer or into the room behind the last one, and on no other byte |
| VringLayout.PutIsWrite | vring_test/vring.c:149-166 | the list of buffers after a put is the memory after header and packet were written at the address of the descriptor |
| VringModel.RoundKeepsIff | vring_test/vring.c:308-315 | each descriptor keeps one owner over a round of the server if and only if the new used entries are, as a multiset, the descriptors taken |
| VringModel.ReclaimRestoresIff | vring_test/vring.c:202-204 | freeing the used entries gives a free list of all descriptors that are not pending if and only if each descriptor had one owner; otherwise no list reaches the lost one |
| VringModel.GatherPacked | vring_test/vring.c:165-168 | what was put into a descriptor is what is gathered from it behind the header, or nothing if it does not pass the length test |
| VringModel.GatherIs | vring_test/vring.c:230-258 | what is gathered is the concatenation, in chain order, of the longest part of the chain that stays below 1518 bytes |
| VringModel.PutBytes | vring_test/vring.c:149-168 | ten zero bytes stand in the buffer, and behind them the packet, up to the end of the buffer |
| TxSpec.PutHeadIff | vring_test/vring.c:157-168 | the header of the next pending packet stays all zero over a put if and only if the packet is at most 1518 bytes long, or what covers the header, and what it leaves of it, is zero |
| TxSpec.ChecksClean | vring_test/vring.c:272-279 | over every legal run in which no accepted packet is longer than 1518 bytes every header is all zero when it is handled |
| TxSpec.PipelineInOrder | vring_test/vring.c:129-318 | over every legal run the packets that pass the length test are handled once and in order, and fewer than two ring sizes of packets are ever accepted; while nothing was dropped every descriptor has one owner |
| TxSpec.ServeKeepsIff | vring_test/vring.c:242-315 | each descriptor keeps one owner over a serve if and only if the used entries name those taken, in particular if all packets pass |
| TxSpec.ReclaimEndsIff | vring_test/vring.c:202-204 | the reclaim loop reaches the used index if and only if that is below the ring size |
| TxSpec.FilledOnce | vring_test/vring.c:202-315 | n packets put before the first reclaim can be reclaimed after the serve if and only if they are fewer than the ring size |
| VringLayout.NewVring | vring_test/vring.c:26-57 | for every base address the buffers are 8-aligned, disjoint, behind the ring structures and inside the region, and the links form one list of all descriptors ending in VRING_IDX_NONE |
| VringLayout.Room | vring_test/vhost_client.c:24-25 | VHOST_CLIENT_PAGE_SIZE leaves room for the structures, all buffers and one more, wherever the first buffer is aligned to |
| Rings.SlotDistance | virtio-vhost/virtio_test.py:154 | the distance of two ring indices, and the one case in which it is ambiguous |
| TcpRuns.StepChange | dpdk-code/14_tcp_concurrency/tcp_concurrency.c:1514-2149 | every legal step creates one stream, lets one go on, removes one, or changes nothing |
| TcpRuns.StepInv | dpdk-code/14_tcp_concurrency/tcp_concurrency.c:1514-2149 | no two connections share their four addresses, and the acknowledgement number of every fragment in a send buffer is that of the bytes and FINs handled when it was queued; every step keeps this |
| TcpRuns.RunInv | dpdk-code/14_tcp_concurrency/tcp_concurrency.c:1514-2149 | and so does every run |
| TcpRuns.PushedOk | dpdk-code/14_tcp_concurrency/tcp_concurrency.c:1866-1949 | rcv_nxt grows by the payload handled in ESTABLISHED, modulo 2^32, and the queued ACK carries it |
| TcpRuns.FinishedOk | dpdk-code/14_tcp_concurrency/tcp_concurrency.c:1987-2027 | a FIN counts once, ends ESTABLISHED, queues an empty fragment, and its ACK carries the new number |
| TcpRuns.EstablishedOk | dpdk-code/14_tcp_concurrency/tcp_concurrency.c:1861-2030 | PSH and FIN together keep the acknowledgement history |
| TcpEffects.EstablishedIs | dpdk-code/14_tcp_concurrency/tcp_concurrency.c:1861-2030 | for each of the four combinations of PSH and FIN: the queued fragments, the acknowledgements with ports, numbers and flags, rcv_nxt, the payload and FINs counted, and the state |
| TcpEffects.ProcessEstablished | dpdk-code/14_tcp_concurrency/tcp_concurrency.c:1861-2030 | the same for a whole segment: no other stream changes, and the descriptor becomes readable once for the payload and once for the FIN |
| TcpEffects.ProcessListen | dpdk-code/14_tcp_concurrency/tcp_concurrency.c:1708-1753 | a SYN to a listener puts a stream in front whose every field is given, with the SYN-ACK for the next number; anything else is ignored |
| TcpEffects.ProcessSynRcvd | dpdk-code/14_tcp_concurrency/tcp_concurrency.c:1756-1790 | an ACK makes the stream ESTABLISHED and the first match for its port readable, or ends the program; anything else is ignored |
| TcpEffects.ProcessLastAck | dpdk-code/14_tcp_concurrency/tcp_concurrency.c:2049-2071 | an ACK takes the stream out of the table; anything else is ignored |
| TcpEffects.ProcessOther | dpdk-code/14_tcp_concurrency/tcp_concurrency.c:2032-2144 | a segment in any other state changes nothing |
| TcpEffects.ProcessNobody | dpdk-code/14_tcp_concurrency/tcp_concurrency.c:2074-2092 | a segment that matches no stream changes nothing |
| TcpEffects.StepTraffic | dpdk-code/14_tcp_concurrency/tcp_concurrency.c:1319-2030 | a step adds to a stream exactly the payload of a PSH segment that finds it ESTABLISHED, the bytes of a read from the head of its queue, or the bytes of a send |
| TcpEffects.RunTraffic | dpdk-code/14_tcp_concurrency/tcp_concurrency.c:1319-2030 | over every legal run: what a stream has handled, what was read from it and what is queued to be sent are the concatenations of these payloads, reads and sends, in order |
| TcpRuns.StepLife | dpdk-code/14_tcp_concurrency/tcp_concurrency.c:1708-2149 | a connection only advances SYN_RCVD, ESTABLISHED, CLOSE_WAIT, LAST_ACK; it leaves the table only on an ACK in LAST_ACK |
| TcpRuns.StepOrigin | dpdk-code/14_tcp_concurrency/tcp_concurrency.c:1708-1753 | a connection comes into the table only by a SYN to a listener, in SYN_RCVD |
| TcpRuns.RunLife | dpdk-code/14_tcp_concurrency/tcp_concurrency.c:1708-2149 | over every run a connection that was there before has only advanced, its log of acknowledgements only grown, its addresses stayed |
| TcpRuns.RunDeparture | dpdk-code/14_tcp_concurrency/tcp_concurrency.c:2049-2071 | over every run a connection either goes on or meets an ACK in LAST_ACK, which ends it |
| TcpRuns.RunSound | dpdk-code/14_tcp_concurrency/tcp_concurrency.c:1369-1423 | over every run of well-formed packets and sufficient reads: read ++ queued == payload handled, in order, and rcv_nxt == ISN + 1 + its length + FINs modulo 2^32 |
| TcpRuns.ReadOrderIff | dpdk-code/14_tcp_concurrency/tcp_concurrency.c:1390-1418 | a read keeps the order if and only if it takes the whole first fragment or what it leaves commutes with the data behind it |
| TcpRuns.ReadSound | dpdk-code/14_tcp_concurrency/tcp_concurrency.c:1390-1418 | the form that a caller can check: a read as long as the first fragment, or with nothing else queued, keeps the order |
| TcpRuns.ReadShort | dpdk-code/14_tcp_concurrency/tcp_concurrency.c:1390-1401 | any other read loses the order, unless the bytes happen to agree |
| TcpExamples.PartialReadReorders | dpdk-code/14_tcp_concurrency/tcp_concurrency.c:1199-1423 | a run from the empty table in which the bytes 1, 2, 3 are read as 1, 3, 2 |
| TcpRuns.ListenersStay | dpdk-code/14_tcp_concurrency/tcp_concurrency.c:1708-1753 | a segment leaves every listener as it is |
| TcpRuns.ExitIff | dpdk-code/14_tcp_concurrency/tcp_concurrency.c:1756-1790 | a segment ends the program if and only if it is an ACK for a connection in SYN_RCVD and nobody listens on the port any more, nor is a socket bound to it without an address |
| TcpExamples.ListenerClosedTooEarly | dpdk-code/14_tcp_concurrency/tcp_concurrency.c:1199-1790 | a run from the empty table that reaches that exit: the listener is closed between the SYN and the ACK |
| TcpRuns.Handler | dpdk-code/14_tcp_concurrency/tcp_concurrency.c:1638-1661 | a segment goes to the connection with its addresses, else to a listener on the port |
| TcpSpec.SearchFirst | dpdk-code/14_tcp_concurrency/tcp_concurrency.c:1638-1661 | the search finds the first stream with the four addresses, else the first listener on the port, else nothing |
| Tcp.TcpTable.StreamSearch | dpdk-code/14_tcp_concurrency/tcp_concurrency.c:1638-1661 | the two loops compute that search |
| Tcp.TcpTable.FromFd | dpdk-code/14_tcp_concurrency/tcp_concurrency.c:929-935 | the first of the TCP streams with the descriptor |
| Tcp.TcpTable.AcceptTcb | dpdk-code/14_tcp_concurrency/tcp_concurrency.c:900-911 | the first stream on the port without a descriptor |
| Tcp.TcpTable.HandleListen | dpdk-code/14_tcp_concurrency/tcp_concurrency.c:1708-1753 | a SYN to a listener puts a new stream in SYN_RCVD at the head of the table, with the addresses of the segment and one SYN-ACK for the next number; all others stay |
| Tcp.TcpTable.HandleSynRcvd | dpdk-code/14_tcp_concurrency/tcp_concurrency.c:1756-1790 | an ACK establishes, whatever its number; the first match for the port is woken, or the program exits |
| Tcp.Stream.Established | dpdk-code/14_tcp_concurrency/tcp_concurrency.c:1861-2030 | in place, for each of the four combinations of PSH and FIN: payload and FIN fragments queued, acknowledgements queued with their numbers, counters and state; no other field changes |
| Tcp.Stream.EnqueueRecvBuffer | dpdk-code/14_tcp_concurrency/tcp_concurrency.c:1792-1831 | the payload, if any, is queued as one fragment |
| Tcp.Stream.SendAckPkt | dpdk-code/14_tcp_concurrency/tcp_concurrency.c:1833-1859 | an ACK with the present numbers is queued |
| Tcp.TcpTable.HandleLastAck | dpdk-code/14_tcp_concurrency/tcp_concurrency.c:2049-2071 | an ACK removes the stream |
| Tcp.TcpTable.Process | dpdk-code/14_tcp_concurrency/tcp_concurrency.c:2074-2149 | one segment is one step of the run; a bad checksum gives -1 and no change, a segment for nobody -2 |
| Tcp.TcpTable.NSocket | dpdk-code/14_tcp_concurrency/tcp_concurrency.c:1199-1240 | a new closed stream at the head of the table |
| Tcp.TcpTable.NBind | dpdk-code/14_tcp_concurrency/tcp_concurrency.c:1243-1272 | port and address are set and the stream is closed |
| Tcp.TcpTable.NListen | dpdk-code/14_tcp_concurrency/tcp_concurrency.c:1275-1287 | the stream listens |
| Tcp.TcpTable.NAccept | dpdk-code/14_tcp_concurrency/tcp_concurrency.c:1290-1316 | the first unaccepted stream on the port gets the descriptor; otherwise the call blocks |
| Tcp.TcpTable.NSend | dpdk-code/14_tcp_concurrency/tcp_concurrency.c:1319-1365 | one fragment with the data, the ports turned round, the present numbers and PSH and ACK is queued, and no other stream changes; the length is the result |
| Tcp.TcpTable.NRecv | dpdk-code/14_tcp_concurrency/tcp_concurrency.c:1369-1423 | the first fragment is read; what is left of it goes to the end, and its length is the result; no other stream changes |
| Tcp.TcpTable.NClose | dpdk-code/14_tcp_concurrency/tcp_concurrency.c:1536-1574 | a listener leaves the table; any other stream queues one FIN with the present numbers and waits for its ACK |
| Tcp.Drive | dpdk-code/14_tcp_concurrency/tcp_concurrency.c:1158-2149 | any run of calls and segments on the table in place is the run of the model |
| DnsNames.RoundTripIff | dpdk-code/dns.c:218-268 | decoding an encoded name gives it back, with the position behind it, if and only if it has at most 254 bytes, no byte up to 63 but the dot, and 1 to 63 bytes in each label behind a dot |
| DnsNames.NameRoundTrips | dpdk-code/dns.c:218-268 | for labels of 1 to 63 bytes above 63: the encoder writes the wire form, and decoding the wire form gives the text |
| DnsNames.DecodesSeen | dpdk-code/dns.c:218-235 | any labels of 1 to 63 bytes without a zero, 254 bytes in all, are decoded to their end, with a dot for every byte up to 63 |
| DnsNames.EncodesSeenIff | dpdk-code/dns.c:218-268 | encoding what was decoded gives the same wire form if and only if all bytes are above 63 |
| DnsNames.NameEndsIff | dpdk-code/dns.c:218-235 | the decoder finds the end of a name if and only if it has a label and no zero byte: the root name and names with zeros are not |
| DnsNames.EncodesLabels | dpdk-code/dns.c:238-268 | the encoder writes the labels behind their lengths, and a zero |
| DnsNames.EncodedAt | dpdk-code/dns.c:246-262 | every byte of the name stands one further on; dots have become lengths |
| DnsNames.ScanEnds | dpdk-code/dns.c:221-234 | the decoder stops at the first zero, or fails after 255 bytes |
| DnsSpec.QueryDecodes | dpdk-code/dns.c:306-339 | every query of `size` bytes whose names have labels of 1 to 63 bytes without a zero, 254 bytes in all, in a buffer of any length, is decoded to its end, into its questions in reverse order, with a dot for every byte up to 63 in their names |
| DnsSpec.RefusedIff | dpdk-code/dns.c:306-339 | which packets are refused, from their bytes: those that announce answers or authorities, and those in which the name of a question has no end within the limit; nothing else |
| DnsSpec.CountsRefused | dpdk-code/dns.c:312-315 | a packet with a nonzero ANCOUNT or NSCOUNT is refused and not answered |
| DnsSpec.ResolvedAll | dpdk-code/dns.c:361-437 | answers come out in the reverse of the list, and only a question of another type changes the response code |
| DnsSpec.AnswersMatched | dpdk-code/dns.c:378-423 | every answer has a type that the encoder knows and as many data bytes as RDLENGTH says |
| DnsSpec.AnswerIs | dpdk-code/dns.c:45-91 | the three records of the known name, byte by byte, and none for any other name or type |
| DnsSpec.ResponseReads | dpdk-code/dns.c:441-500 | a reader written from RFC 1035 reads back exactly QDCOUNT questions and ANCOUNT answers, up to the last byte |
| DnsSpec.ResponseHeader | dpdk-code/dns.c:343-500 | the header of every response byte by byte: identifier and question count of the query, the response bit, no other records, and code 4 if and only if a question is of another type |
| DnsSpec.ResponseParses | dpdk-code/dns.c:343-500 | resolving and encoding a message of C strings: a reader finds the same identifier, the questions in list order, the answers in the reverse order, up to the last byte, if and only if every name is one of labels of 1 to 63 bytes |
| DnsSpec.NeverAnswers | dpdk-code/dns.c:45-91 | no decoded query is ever answered: the one known name contains a digit, which the decoder turns into a dot |
| DnsSpec.ResponseFits | dpdk-code/dns.c:564-586 | a response is exactly as long as the decoded part of the query, so it fits over it |
| DnsSpec.QueryToResponse | dpdk-code/dns.c:306-500 | from query to response over the wire, for every such query, every received size and every buffer that holds it: the response is as long as the query, and reads back as the questions in reverse order without answers if and only if all bytes of all names are above 63; otherwise not even the questions come back |
| DnsSpec.KnownQueryGarbled | dpdk-code/dns.c:45-500 | the query for the one known name: the response of 33 bytes reads as the single label "arno" with a type and a class made of name bytes, and ends at byte 22 |
| DnsSpec.NeverWild | dpdk-code/dns.c:306-339 | a buffer that holds the header and, for each announced question, the longest name and 4 bytes is never left: a condition to check before decoding |
| Dns.Cursor.DecodeDomainName | dpdk-code/dns.c:218-235 | the loop computes the decoding and moves the pointer behind it |
| Dns.Cursor.EncodeDomainName | dpdk-code/dns.c:238-268 | the loop writes the encoding and moves the pointer behind it, and changes nothing else |
| Dns.Msg.Decode | dpdk-code/dns.c:306-339 | fills the message in place and moves the pointer behind its questions, or fails; nonzero bytes 6 to 9 always fail |
| Dns.Msg.ResolveQuery | dpdk-code/dns.c:343-438 | the loop over the questions computes the resolution |
| Dns.Msg.EncodeResourceRecords | dpdk-code/dns.c:441-475 | writes the records; returns 1 if and only if there is one of another type |
| Dns.Msg.Encode | dpdk-code/dns.c:478-500 | writes header, questions and answers |
| Dns.Respond | dpdk-code/dns.c:564-586 | one packet: the response is written over the query, and always fits there; a packet that is not decoded, in particular one that announces answers or authorities, changes nothing |
| Checksum.NgChecksum | dpdk-code/04_icmp/icmp.c:216-236 | both loops end, and the result is the complement of the folded sum of the words |
| Checksum.Fold | dpdk-code/04_icmp/icmp.c:231-233 | folding ends, preserves the sum modulo 65535, and gives 0 for 0 only |
| Checksum.FoldIs | dpdk-code/04_icmp/icmp.c:231-233 | the folded sum in closed form |
| Checksum.RecheckIsZero | dpdk-code/04_icmp/icmp.c:269-270 | with its checksum in a zeroed, aligned field, a buffer checks out as 0 |
| Checksum.RecheckIff | dpdk-code/04_icmp/icmp.c:269-270 | which other values of the field check out: none, but for the two forms of zero |
| Checksum.OddRecheckIff | dpdk-code/04_icmp/icmp.c:269-270 | which values check out in a field at an odd position: those whose bytes, swapped, are the checksum |
| Checksum.OddFieldIff | dpdk-code/04_icmp/icmp.c:269-270 | there a buffer passes its own check if and only if the two bytes of its checksum are equal |
| Checksum.OddFieldFails | dpdk-code/04_icmp/icmp.c:269-270 | a buffer with the field at an odd position that fails its own check |
| Checksum.EncodeIcmp | dpdk-code/04_icmp/icmp.c:262-270 | identifier and sequence number are copied, the ICMP part of the packet checks out as 0, and no other byte changes |
| BitCount.CountBit | dpdk-code/14_tcp_concurrency/tcp_concurrency.c:2784-2828 | the do-while loop counts the one bits of the words it reads, in 32 bits; for a positive length divisible by 8 these are the bytes of the message |
| BitCount.CountsWord | dpdk-code/14_tcp_concurrency/tcp_concurrency.c:2817-2821 | the four lines on one word count its one bits, with every wrap-around written out |
| BitCount.Stage1Sums | dpdk-code/14_tcp_concurrency/tcp_concurrency.c:2818 | each 2-bit field holds the number of its ones |
| BitCount.Stage2Sums | dpdk-code/14_tcp_concurrency/tcp_concurrency.c:2819 | each 4-bit field holds the sum of its halves |
| BitCount.Stage3Sums | dpdk-code/14_tcp_concurrency/tcp_concurrency.c:2820 | each byte holds the sum of its halves, without a carry |
| BitCount.MultiplySums | dpdk-code/14_tcp_concurrency/tcp_concurrency.c:2821 | the top byte of the product is the sum of the eight bytes |
| Window.Detector.Detect | dpdk-code/14_tcp_concurrency/tcp_concurrency.c:2841-2891 | pkt_idx stays below 512, and from packet 257 on the totals are the sums over exactly the last 256 packets |
| Window.Detector.DdosDetect | dpdk-code/14_tcp_concurrency/tcp_concurrency.c:2832-2891 | the same with the bits counted by count_bit, for any length, over the words that the packet reaches into |
| Window.WindowSum | dpdk-code/14_tcp_concurrency/tcp_concurrency.c:2852-2856 | the sum over the slots is the sum over the latest values, whatever the position |

## Left out

- The DPDK, SPDK and VPP glue, timers, ARP table, file descriptor bitmap, UDP sockets and packet encoders other than the
  ICMP reply: thin calls and easy members.
- Older copies of the same stack in other directories: they repeat the code modelled here.
- The rings of `virtio-vhost/vhost.c`, `rcu.c` and the hash example: their guarantees lie in the libraries they call.
- RbTree.RbHead: RB_AUGMENT is empty in the code and has no counterpart.
- Splay.SplayHead.MinMax: a direction of 0 is excluded, because the loop then never ends; the callers pass -1 or 1.
- Splay.SplayHead.Next: the argument must be in the tree, since the code reads its links after splaying for its key.
- Epoll.EventPoll.Callback: the code returns no value after listing an item; the model returns 0 there.
- Epoll.EventPoll.Wait: the blocking loop in front and the timeout are not modelled; the freed item of a deletion is not
  reused.
- EpollSpec.StepKeepsInv: after the deletion of a ready entry the model says only that the list still holds it.
- Tcp.TcpTable: the list is a sequence of control blocks, without its prev and next links; streams are not freed, and the
  transmission of queued fragments by the sending thread is not modelled, so a send buffer holds all that was queued.
- Tcp.TcpTable.FromFd: UDP sockets and the epoll descriptor are not searched.
- Tcp.TcpTable.Process: the segment must hold the bytes that its lengths announce, as the code reads them unchecked.
- TcpRuns.RunInv: segments have a non-zero source address, and only descriptors of sockets are bound or set to listen.
- Virtqueue.Vring.Produce: the two halves of a producer round are one step; HalfRounds and TornRound take them apart.
- VringC.Vring.PutVring: a descriptor must be free, which the code does not check.
- VringC.Vring.ProcessDesc: chains without an end are left out, and so is what a handler does with a wrapped length.
- VringC.VhostVring: buffers are indexed by descriptor instead of by address, which VringLayout.NewVring justifies; the
  kick and call descriptors, and the return value of the packet handler, which the code ignores, are left out.
- TxSpec.PipelineInOrder: a reclaim is legal only while the used index is below the ring size, since it does not end
  otherwise (ReclaimEndsIff), and while every descriptor has one owner; VringC.Vring.ProcessUsedVring says what any other
  one does, but the runs do not go on from there, because there is no free list any more.
- DnsSpec.QueryToResponse: the root name and names with a zero byte are left out, since the decoder loses its place in
  the query there (NameEndsIff).
- Dns.Msg.Decode: buffers in which the code would read past the end are excluded (NeverWild); header flags other than QR
  and RCODE, the sections for authorities and additional records, which stay empty, name compression and EDNS are left
  out.
- Window.Detector.Detect: the entropy and the decision are floating point and are left out.
- BitCount.CountBit: a length that is not divisible by 8 makes the code read past the message; the model then needs that
  many bytes.
