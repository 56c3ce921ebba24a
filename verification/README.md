# Streaming RISC-V virtual machine: a verified model

A hardware wallet runs RISC-V applications that do not fit in its memory. Pages of guest
memory are kept by an untrusted host, encrypted and authenticated; the device keeps three
small sorted caches, one Merkle root and a counter per page. This project models that
system in Dafny, in three groups.

**Paged, authenticated memory.** `MerkleTerms`, `HostMerkleTree` and `DeviceMerkle` are the
hash tree of section 2.1 of RFC 6962 as the host holds it (a full list) and as the device
tracks it (a root, a size and the last leaf). `PageCache` is the sorted cache with its
in-place reordering. `Protocol`, `HostStream` and `HostLink` are the messages, the honest
host and the link; behind the link is either the honest host or anybody, whose replies are
arbitrary. `PagedState` and `Vm` are the device: page requests and commits, lazily created
zero pages, eviction. `Flat` is the flat byte memory, `Runs` the refinement over whole runs,
`Syscalls` and `Transfer` the system calls that walk memory page by page, `Calls` their
dispatcher. `Cpu` is the instruction set and `Rounds` the guest as a flat machine with the
honest host beside it; `Interpreter` is the interpreter on the paged memory, system calls
included, and `Division` the software division routine guests run on it. `Manifests` is the
signed manifest, `Signing` the handshake after which the host holds the tag of every initial
page, and `Deployment` joins everything: sign an application, start it and run it.

**Encoders.** `Base58` (in-place long division in both directions), `BitGroups`, `Bech32`,
`Bech32Text` and `Segwit` (regrouping of bits, linear checksum, addresses).

**Arithmetic and printing.** `Uint128`, `Uint256`, `Mul128`, `Uint256Text` (limbs, division,
numerals), `Bcd`, `EthAmount`, `Decimals` (amounts as text), `Sha256` (streaming hash).
`Machine`, `Pages`, `Numerals`, `NumeralText`, `Bits` and `Limbs` are shared definitions.

How the parts are abstracted:

- SHA-256 inside the tree is ideal: a digest is the term that was hashed, and leaves and
  inner nodes are apart because of their prefixes. HMAC is ideal: a tag is the authenticated
  message under its key, or unrelated bytes, and an arbitrary host can only show a tag it was
  given. AES is an uninterpreted pair of functions where decryption undoes encryption. In the
  signing handshake a tag is 32 bytes; `Deployment` reads them as ideal tags on the pages of the
  application only, and `CryptoExists` exhibits functions that allow it for every application.
- One `io_exchange` is one step: a command out, a reply in. The random eviction is any slot.
- A failed page access ends the run, as `stream_run_app` does; contracts of operations that
  can fail therefore say what holds when they succeed, and, with an honest host, when they do.
- With an honest host an access is *obstructed* (`Runs.Obstructed`) if it does not lie in one page
  of a section that allows it, or if it is not to code and the pages the run made exist leave more
  than 128 entries in the tree, or none to start with, or some counter is at its last value at that
  moment. A run stops only at an obstructed access. *Blocked* (`Runs.Blocked`) is the same foretold
  from the start of the run, when only the number of accesses so far is known of the counters.
- A signature is its outcome: a manifest the device signed describes the application it was signed
  for. Between two calls of `exchange` the guest waits, so the calls the client will make are a list.

Where the code and its documentation differ, the code is followed: the documentation has code
pages encrypted under a static key, but a page whose counter is zero is authenticated and not
decrypted, so the initial pages are stored in the clear (`vm/src/stream.c:173-179`).

Findings about the code, each stated exactly by a member below:

- `sys_memcpy` on overlapping ranges with the destination above the source is a copy only if
  it is done in one chunk (`ChunkCopyIsCopyOnlyIf`).
- A new page can be recorded only in a tree that is not empty, so an application needs one
  initial data page (`NewPageRecorded`); proofs fit in a message up to exactly 128 entries
  (`ProofsFit`).
- `shiftr128` in place by exactly 64 loses a nonzero upper limb (`ShiftRight128`); no caller
  in the file does that.
- `merkle_insert` does not refuse a second entry for a page. Once one is in the tree, a proof of its
  first occurrence is accepted and the next root is wrong (`RepeatedEntryMisplaces`); the device
  never inserts one.
- MULH and MULHSU do not extend signs; they agree with the "M" extension exactly under the conditions
  of `HighWords`.
- `amountToString` takes a room that has wrapped around when the buffer is no longer than the ticker,
  and its next write is then after the end of the buffer (`AmountToString`).
- `base58_decode` refuses texts of fewer than two characters, which `base58_encode` can return
  (`DecodeAfterEncode`).
- `segwit_addr_encode` accepts some negative versions and an empty human-readable part;
  `segwit_addr_decode` returns neither (`DecodedUndoesAddress`).
- `sys_xrecv` delivers an empty message as one zero byte (`SysXrecv`).

## Model

| member | source | states |
|---|---|---|
| `Runs.StreamApplication` | vm/src/stream.c:429-524 | From the signed files of an application and empty caches, any finite run of loads, stores and fetches returns what a flat memory holding the application's pages and zeros returns, up to the first failure, for every host and every eviction; with an honest host the run stops only at an obstructed access: not legal, the tree full, or a counter at its last value at that moment |
| `Runs.Run` | vm/src/stream.c:454-524 | The same from any reachable state of the device, with the flat memory and the versions committed at the end |
| `Runs.PerformNext` | vm/src/stream.c:429-524 | One more access of a run returns the flat result; with an honest host it fails only if it is obstructed in the versions committed at that moment |
| `Runs.NextPage` | vm/src/memory.c:264-281 | The next page access of a system call does not change the flat memory, and with an honest host fails only if it is blocked |
| `Runs.StoredIsLoaded` | vm/src/stream.c:454-524 | A load returns what the last store to the same place put there, cut to its size |
| `Runs.ReachGrows` | vm/src/memory.c:198-219 | The end of the heap only moves up and the start of the stack only down along a run |
| `Runs.WhyNot` | vm/src/memory.c:187-236 | With an honest host, an access the device would not be served is obstructed, and what is obstructed was foreseeable from the start of the run |
| `Runs.LoadedHostAgrees` | host/stream_device.py:36-66 | The host loaded from the signed files holds the page copies, tags and tree the freshly started device expects |
| `Vm.Device.constructor` | vm/src/stream.c:367-392 | From the sections, addresses and Merkle state of a manifest and from empty caches, all invariants linking caches, Merkle state, counters and host hold, and memory is the signed pages |
| `Vm.Device.RequestPage` | vm/src/stream.c:108-211 | Whatever the host replies, an accepted page is the last committed version of that address with its counter, or the signed page; an honest host's reply is accepted, for code whatever the size of the tree |
| `Vm.Device.CommitPage` | vm/src/stream.c:216-301 | A successful commit advances the counter by one, replaces or appends the page's tree entry, and keeps device and host in agreement; it fails at the last counter and never with an honest host up to 128 entries |
| `Vm.Device.CreateEmptyPages` | vm/src/memory.c:169-185 | Exactly the pages of the range come into being, zeroed and with counter 1, and nothing else changes |
| `Vm.Device.EvictPage` | vm/src/memory.c:149-161 | A free slot is taken first; giving up any slot, after committing it if it is writeable, loses nothing of the flat memory |
| `Vm.Device.ExtendHeap` | vm/src/memory.c:203-210 | An access beyond the heap creates every page up to it, leaving the flat memory as it was |
| `Vm.Device.ExtendStack` | vm/src/memory.c:211-219 | An access below the stack creates every page down to it, leaving the flat memory as it was |
| `Vm.Device.FillSlot` | vm/src/memory.c:198-230 | The slot ends up with the present version of the page, fetched or newly created |
| `Vm.Device.CreatePage` | vm/src/memory.c:187-236 | A page that was not cached is brought in at its sorted place, with all invariants kept, the flat memory unchanged and no counter advanced by more than one |
| `Vm.Device.FindPage` | vm/src/memory.c:138-147 | A page is found exactly when it is cached, and then holds the present contents |
| `Vm.Device.GetCache` | vm/src/memory.c:243-259 | The one section that contains the address; none exactly outside all sections or for code to be written |
| `Vm.Device.GetPage` | vm/src/memory.c:264-281 | Any access gets the present contents of its page and leaves the flat memory as it was; an honest host never makes it fail on a cached page, on code, or when there is room in the tree and no counter is at its end |
| `Vm.Device.GetCodePage` | vm/src/memory.c:283-306 | A hit on the slot last used always holds the requested page, however the cache was reordered since; outside the code section it fails, inside it an honest host never makes it fail |
| `Vm.Device.StoreBytes` | vm/src/stream.c:510-521 | Writing through a page pointer changes those bytes of the flat memory and no others |
| `Vm.Device.LoadBytes` | vm/src/stream.c:470-481 | Reading through a page pointer gives the bytes of the flat memory |
| `Vm.Device.MemRead` | vm/src/stream.c:454-484 | Returns the little-endian value in the flat memory; refuses accesses that cross a page |
| `Vm.Device.MemWrite` | vm/src/stream.c:489-524 | Overwrites exactly the little-endian bytes of the value in the flat memory |
| `Vm.Device.GetInstruction` | vm/src/stream.c:429-449 | Returns the word in the flat memory, from the code section only |
| `Vm.FitInPage` | vm/src/stream.c:415-427 | For up to a page of bytes, true exactly when they fit in the room left in the page of the address |
| `PagedState.CommitKeepsBacking` | vm/src/stream.c:216-301 | Committing the next version of a page keeps store, tree entries and the tags the host has seen consistent |
| `PagedState.CommitKeepsHost` | host/stream_device.py:72-80 | The honest host that records a commit again holds exactly the committed versions |
| `PagedState.AcceptedVersion` | vm/src/stream.c:155-180 | A tag ever given to the host, with the counter in the tree, authenticates exactly the last version of that page |
| `PagedState.AcceptedCodePage` | vm/src/stream.c:181-188 | A code page accepted under the static key is the signed one |
| `PagedState.EvictKeepsCaches` | vm/src/memory.c:189-196 | Giving up a committed slot keeps every cached page current and every uncached page equal to its last version |
| `PagedState.LoadKeepsCaches` | vm/src/memory.c:221-235 | Putting the present version of an uncached page in its sorted place keeps the caches consistent |
| `PagedState.StoreKeepsInvariants` | vm/src/stream.c:510-521 | A store into a cached page keeps every invariant with the flat memory following |
| `PagedState.BootInvariants` | vm/src/memory.c:72-76 | The signed pages and the manifest's tree state satisfy the invariants |
| `PagedState.LoadedHostHoldsCopies` | host/stream_device.py:44-58 | A host loaded with the signed pages and their static tags holds the copies the device expects |
| `PageCache.Cache.constructor` | vm/src/memory.c:52-61 | All slots free, no current page |
| `PageCache.Cache.BinarySearch` | vm/src/memory.c:78-95 | Finds an address exactly when it is cached |
| `PageCache.Cache.Evict` | vm/src/memory.c:149-161 | A free slot, if any, is the first one and is chosen |
| `PageCache.Cache.Reorder` | vm/src/memory.c:103-131 | The result is the other slots in their order with the page inserted, sorted; the slot returned holds the page |
| `PageCache.ReplacedSlotsStayUsed` | vm/src/memory.c:149-161 | Replacing one slot, a free one if there is any, leaves every used slot used |
| `HostLink.Channel.IoExchange` | vm/src/stream.c:117-119 | An honest link answers as the host's handler does; any other link can show only tags it was given |
| `HostLink.HonestServes` | host/stream_device.py:99-125 | The honest host answers a page request with the last committed copy and its tag |
| `HostLink.HonestProves` | host/stream_device.py:114-125 | It proves the page's current counter |
| `HostLink.HonestCommits` | host/stream_device.py:127-155 | It records a commit and returns a proof of the entry replaced, or of the last entry |
| `HostLink.NewPageRecorded` | host/stream_device.py:127-155 | A new page is recorded if and only if the tree is not empty and the proof of its last entry fits in a message |
| `HostLink.ProofsFit` | host/merkletree.py:95-123 | Every audit path fits in one message if and only if the tree has at most 128 entries |
| `HostStream.DeviceStream.constructor` | host/stream_device.py:36-66 | Loads code pages read-only outside the tree and data pages with one entry of counter 0 each, in address order |
| `HostStream.DeviceStream.StorePage` | host/stream_device.py:72-80 | A page is added with a new entry or replaced with its entry updated; a read-only page refuses |
| `HostStream.DeviceStream.HandleCommit` | host/stream_device.py:127-155 | The proof sent is the one from before the page is recorded, and the counter must be the next one |
| `HostStream.DeviceStream.HandleSendBuffer` | host/stream_device.py:157-171 | Chunks are appended in the order of their counters, and the message is returned on the last one |
| `HostStream.DeviceStream.HandleRecvBuffer` | host/stream_device.py:173-197 | The next bytes of the message, with the end marked, under a counter that must agree |
| `HostStream.DeviceStream.Handle` | host/stream_device.py:208-254 | Every command is answered as the host's step relation says, or the host stops |
| `HostMerkleTree.MerkleTree.FindIndexByAddr` | host/merkletree.py:51-57 | The first entry of an address, or none |
| `HostMerkleTree.MerkleTree.Update` | host/merkletree.py:59-67 | Replaces the counter of the page's entry; fails without one |
| `HostMerkleTree.MerkleTree.Insert` | host/merkletree.py:69-75 | Appends an entry; fails if the page has one |
| `HostMerkleTree.MerkleTree.GetProof` | host/merkletree.py:107-114 | The entry of a page and a proof that folds from it to the root hash; none exactly when no entry has the address |
| `HostMerkleTree.MerkleTree.GetProofOfLastEntry` | host/merkletree.py:116-123 | The newest entry and a proof that folds from it to the root hash; none exactly on an empty tree |
| `MerkleTerms.Split` | host/merkletree.py:38-44 | The split point is below the size and at least half of it |
| `MerkleTerms.PathRecomputesUpdatedRoot` | host/merkletree.py:81-105 | Recomputing a root from an audit path with the leaf replaced gives the hash of the updated list |
| `MerkleTerms.PathRecomputesAppendedRoot` | vm/src/merkle.c:79-97 | Cutting the last leaf's path at count - (bit_count(n) - 1), pairing the subtree below with the new leaf and climbing the rest gives the hash of the extended list |
| `MerkleTerms.SplitOnAppend` | vm/src/merkle.c:80-80 | How the split point and the number of set bits of the size change when a leaf is appended |
| `MerkleTerms.PathLengthBound` | host/merkletree.py:95-105 | Up to 2^k leaves no audit path has more than k steps |
| `MerkleTerms.FirstPathLength` | host/merkletree.py:95-105 | Above 2^k leaves the first leaf's path has more than k steps |
| `MerkleTerms.AcceptedProofNamesLeaf` | vm/src/merkle.c:124-131 | A proof of any length and any operation bytes that reaches the root is the audit path of a real leaf |
| `DeviceMerkle.AcceptedIffAuditPath` | vm/src/merkle.c:124-131 | For one entry a page, a proof is accepted if and only if it is the page's own audit path for its present counter |
| `DeviceMerkle.ProofHash` | vm/src/merkle.c:29-53 | The loop computes the fold of the proof over the leaf |
| `DeviceMerkle.CountBits` | vm/src/merkle.c:55-65 | The number of set bits |
| `DeviceMerkle.MerkleContext.VerifyProof` | vm/src/merkle.c:124-131 | Accepts exactly audit paths of present entries |
| `DeviceMerkle.MerkleContext.Insert` | vm/src/merkle.c:67-103 | Accepts exactly the audit path of the last entry (anything on an empty tree), and then root, size and last entry are those of the extended list, also for an entry whose page is already there, which ends the invariant that pages are distinct; the level cannot wrap around for an accepted proof |
| `DeviceMerkle.RepeatedEntryMisplaces` | vm/src/merkle.c:67-103 | With a repeated entry, a proof of its first occurrence passes for the last entry and the next root is not that of the extended list |
| `DeviceMerkle.MerkleContext.Update` | vm/src/merkle.c:105-122 | Accepts exactly the audit path of the entry replaced, and then root, size and last entry are those of the updated list |
| `Syscalls.GetBuffer` | vm/src/stream.c:529-550 | A buffer inside one page, whose bytes are those of the flat memory |
| `Syscalls.SysMemset` | vm/src/ecall.c:408-426 | Fills exactly the range with the low byte of the value, across any pages; does not fail with an honest host unless an access to its pages is blocked |
| `Syscalls.SysMemcpy` | vm/src/ecall.c:428-459 | Equals the chunk by chunk copy, even when both ranges share slots, and the whole copy when that is one chunk, disjoint or downward; does not fail with an honest host unless an access to either range is blocked |
| `Syscalls.ChunkCopyIsCopy` | vm/src/ecall.c:428-459 | A copy by chunks is a whole copy if it is one chunk, if the destination is not above the source, or if the source ends before the destination |
| `Syscalls.ChunkCopyIsCopyOnlyIf` | vm/src/ecall.c:428-459 | In every other case there is a memory on which it is not |
| `Syscalls.CopyGuestBuffer` | vm/src/ecall.c:201-220 | Exactly the bytes of the guest's range |
| `Syscalls.CopyHostBuffer` | vm/src/ecall.c:222-241 | The guest's range becomes exactly the bytes, and nothing else changes |
| `Syscalls.SysStrlen` | vm/src/ecall.c:461-483 | The index of the first zero; does not fail with an honest host unless an access to the pages of the string is blocked |
| `Syscalls.SysStrnlen` | vm/src/ecall.c:485-508 | The index of the first zero, or the maximum if there is none before it; does not fail with an honest host unless an access to the pages looked at is blocked |
| `Transfer.SysXsend` | vm/src/ecall.c:118-155 | The honest host's `exchange` returns exactly the bytes of the buffer, with page requests and commits in between; does not fail with an honest host unless an access to the buffer's pages is blocked |
| `Transfer.SysXrecv` | vm/src/ecall.c:44-113 | From any host at most `size` bytes are written and nothing else changes; the honest host's message arrives exactly, and if no access to its pages is blocked the call succeeds if and only if the message fits |
| `Transfer.HostTakesChunk` | host/stream_device.py:157-171 | The host appends a chunk whose counter agrees, without its padding |
| `Transfer.HostOffersChunk` | host/stream_device.py:173-197 | The next part of the message, marked as last exactly at its end, with the counters agreeing |
| `Transfer.FewChunks` | vm/src/ecall.c:139-142 | The chunk counter never reaches the bit that marks the last chunk |
| `Calls.Dispatch` | vm/src/ecall_dispatcher.c:12-110 | Each modelled call does to memory, a0 and the messages what its flat effect says, for every host; with the honest host it fails only if the host has no answer, the call has no effect, or an access is blocked; every other call ends the run |
| `Signing.EncryptHmac` | vm/src/app_signature.c:51-57 | Decrypting the two blocks under the same chaining value gives the tag back, and the chaining value becomes the second block |
| `Signing.ComputeSectionHmacs` | vm/src/app_signature.c:59-109 | Page by page, device and host stay in step: same pages, addresses and chaining values, across both sections |
| `Signing.HandleSignApp` | vm/src/app_signature.c:111-178 | The key is released if and only if the manifest's signature is good, the pages suffice and the signed hash commits to exactly the pages received |
| `Signing.HostSigner.DecryptMacs` | host/app.py:90-95 | Stateful decryption of both lists recovers the tags in order |
| `Signing.DeviceSignApp` | host/app.py:105-142 | On success, exactly characterised, the host holds the 32 bytes of the tag of every page, in order, under its address and counter 0 |
| `Deployment.CryptoExists` | host/app.py:90-95 | For every application there are functions meeting what the theorems below ask of AES and HMAC |
| `Deployment.SignApplication` | host/app.py:105-142 | Signing succeeds exactly when both signatures are made and the manifest commits to the pages, and the tags the host then holds are those the streaming host has to be loaded with |
| `Deployment.SignThenStream` | host/stream_device.py:36-66 | Files signed by the handshake and then streamed: every access returns what the flat memory of the application returns, and with an honest host the run stops only at an obstructed access |
| `Deployment.SignThenRun` | vm/src/stream.c:565-580 | An application signed, started and run, system calls included, does what the flat machine with its pages does, for every host and every eviction; with the honest host the client's calls of `exchange` return the messages the guest sent, in order, and the run stops early only where the guest ends or a round is refused |
| `Cpu.DecodesAssembled` | vm/src/cpu.c:22-153 | Decoding the word of any encodable instruction gives back the operation, the registers and the immediate |
| `Cpu.SplitJoin` | vm/src/rv_cpu.h:109-118 | Splitting an instruction word into fields undoes joining them |
| `Cpu.HighWords` | vm/src/cpu.c:364-370 | MULH and MULHSU compute the high word of the unsigned product, which is the signed one exactly when the stated correction is a multiple of 2^32 |
| `Interpreter.RvCpu.constructor` | vm/src/cpu.c:17-20 | All registers and the program counter are zero |
| `Interpreter.RvCpu.ExecuteNext` | vm/src/stream.c:565-580 | One round of fetch and execution on the paged device, system calls included, is one round of the flat machine; with the honest host it fails only where the round is refused |
| `Interpreter.RvCpu.ExecuteInsn` | vm/src/cpu.c:168-420 | Each instruction other than ECALL changes registers, program counter and memory as the flat step does |
| `Interpreter.RvCpu.ExecuteCall` | vm/src/cpu.c:356-358 | A system call changes a0, the program counter, memory and the messages as its flat effect does |
| `Interpreter.RvCpu.FinishLoad` | vm/src/cpu.c:298-336 | A load puts the value, sign-extended for LB and LH, in the destination |
| `Interpreter.RvCpu.RunApp` | vm/src/stream.c:565-580 | Any number of rounds on the paged device, system calls included, equals that many rounds of the flat machine, whatever is evicted; the honest host is left where its own steps lead, and the run stops early only where the guest ends or a round is refused |
| `Interpreter.StreamInitApp` | vm/src/stream.c:319-398 | Succeeds exactly on a manifest the device signed whose stack ends with a page, and then device, registers and program counter are those of the application's start |
| `Rounds.ClientGetsMessages` | host/stream_device.py:208-254 | Over any rounds with the honest host, its client's calls of `exchange` returned exactly the messages the guest sent, one a call, in order |
| `Division.ListingIsEncodable` | app/sdk/risc-v/div.S:88-161 | Every instruction of the routine has a machine word that decodes to it |
| `Division.CanBeLoaded` | app/sdk/risc-v/div.S:88-161 | For every aligned place there is a memory that holds the routines |
| `Division.Doubling` | app/sdk/risc-v/div.S:100-104 | The doubling loop ends at b * 2^k with a below twice that, without overflow |
| `Division.Subtraction` | app/sdk/risc-v/div.S:105-116 | The subtraction loop ends with the quotient and the remainder |
| `Division.UnsignedDivision` | app/sdk/risc-v/div.S:93-118 | From any state at the entry the machine returns with a0 = a / b and a1 = a % b (2^32 - 1 and a for b = 0), memory and the other registers unchanged |
| `Division.UnsignedRemainder` | app/sdk/risc-v/div.S:120-126 | Returns with a0 = a % b (a for b = 0) |
| `Division.SignedDivision` | app/sdk/risc-v/div.S:88-143 | Returns the quotient truncated toward zero, wrapping for INT_MIN / -1; for every other pair it is what the DIV instruction computes |
| `Division.SignedRemainder` | app/sdk/risc-v/div.S:145-161 | Returns the remainder of the truncated quotient |
| `Division.TruncDivTruncates` | app/sdk/risc-v/div.S:128-161 | That quotient and remainder add up, the remainder is smaller than the divisor and takes the dividend's sign |
| `Base58.DecodingUndoesEncoding` | app/app-swap/src/btc/base58.c:47-160 | The text of any bytes denotes those bytes |
| `Base58.EncodingUndoesDecoding` | app/app-swap/src/btc/base58.c:47-160 | The bytes of any text have that text |
| `Base58.RoomSuffices` | app/app-swap/src/btc/base58.c:127-127 | n * 138 / 100 + 1 base-58 digits hold any n bytes, for every n |
| `Base58.TextFitsDecoder` | app/app-swap/src/btc/base58.c:47-57 | The text of at most 120 bytes has at most 164 characters |
| `Base58.AbsorbByte` | app/app-swap/src/btc/base58.c:128-141 | One byte is multiplied in, and the early break skips no digit that is not zero, as the stop index stays positive |
| `Base58.ConvertDigits` | app/app-swap/src/btc/base58.c:128-141 | The buffer ends up with the base-58 digits of the whole input |
| `Base58.Base58Encode` | app/app-swap/src/btc/base58.c:111-160 | Writes exactly the text with one '1' a leading zero byte, or -1 with nothing written when the input is too long or the text does not fit |
| `Base58.MoveBytes` | app/app-swap/src/btc/base58.c:78-94 | Repeated division by 256 moves the value of the digits into bytes |
| `Base58.LookUp` | app/app-swap/src/btc/base58.c:62-72 | Accepts exactly texts over the alphabet |
| `Base58.Base58Decode` | app/app-swap/src/btc/base58.c:47-109 | Writes exactly the bytes denoted, or -1 with nothing written for a bad character, a length outside 2 to 164 or too little room |
| `Base58.DecodeAfterEncode` | app/app-swap/src/btc/base58.c:47-160 | Decoding a successful encoding gives the bytes back, except exactly for the inputs whose text has fewer than two characters |
| `Base58.EncodeAfterDecode` | app/app-swap/src/btc/base58.c:47-160 | Encoding a successful decoding of at most 120 bytes gives the text back |
| `BitGroups.ConvertBits` | app/app-swap/src/btc/segwit.c:144-171 | With padding, the regrouped bits filled with zeros; without, success exactly when the bits left over are zero and fewer than an input group |
| `BitGroups.UnpaddedUndoesPadded` | app/app-swap/src/btc/segwit.c:144-171 | Regrouping 8 to 5 bits with padding and back without is the identity |
| `BitGroups.UnpaddedAcceptsPadded` | app/app-swap/src/btc/segwit.c:144-171 | The unpadded form accepts exactly the padded images |
| `Bech32.StepLinear` | app/app-swap/src/btc/segwit.c:5-11 | The polymod step distributes over exclusive or |
| `Bech32.StepInjective` | app/app-swap/src/btc/segwit.c:5-11 | On 30-bit states only zero steps to zero |
| `Bech32.ChangedValueChangesChecksum` | app/app-swap/src/btc/segwit.c:78-142 | Changing one value anywhere in a sequence changes its checksum |
| `Bech32.ChecksumCloses` | app/app-swap/src/btc/segwit.c:67-73 | The six values appended bring the checksum to the constant of the encoding |
| `Bech32.ChecksumUnique` | app/app-swap/src/btc/segwit.c:67-73 | No other six values do |
| `Bech32.CharsetInverse` | app/app-swap/src/btc/segwit.c:23-32 | The reverse table undoes the alphabet, which has no separator and no capital |
| `Bech32.CharsetRevInverse` | app/app-swap/src/btc/segwit.c:23-32 | The alphabet undoes the reverse table up to case |
| `Bech32Text.Bech32Encode` | app/app-swap/src/btc/segwit.c:34-76 | Succeeds exactly on a lower-case printable prefix, five-bit values and at most 90 characters, and writes prefix, separator, data and checksum |
| `Bech32Text.Bech32Decode` | app/app-swap/src/btc/segwit.c:78-142 | Accepts exactly well-formed strings of a single case with a valid checksum and tells the encoding, the prefix in lower case and the values |
| `Bech32Text.DecodedUndoesEncoded` | app/app-swap/src/btc/segwit.c:34-142 | Decoding an encoding gives encoding, prefix and values back, and nothing for an empty prefix |
| `Bech32Text.EncodedUndoesDecoded` | app/app-swap/src/btc/segwit.c:34-142 | Encoding what was decoded gives the text in lower case |
| `Bech32Text.SingleErrorDetected` | app/app-swap/src/btc/segwit.c:78-142 | A valid string with the value of one data symbol changed is not valid under the same encoding |
| `Segwit.SegwitAddrEncode` | app/app-swap/src/btc/segwit.c:173-194 | Succeeds exactly for an allowed version and program length that Bech32 can hold, and writes the address |
| `Segwit.SegwitAddrDecode` | app/app-swap/src/btc/segwit.c:196-227 | Accepts exactly the addresses of the prefix with the encoding their version asks for, and gives version and program |
| `Segwit.DecodedUndoesAddress` | app/app-swap/src/btc/segwit.c:173-227 | Decoding an encoded address gives version and program back if and only if the prefix is not empty and the version not negative |
| `Segwit.AddressUndoesDecoded` | app/app-swap/src/btc/segwit.c:173-227 | Encoding a decoded address gives it back in lower case |
| `Uint128.ShiftLeft128` | vm/src/uint256.c:62-79 | Multiplication by 2^value modulo 2^128, for any amount and in place |
| `Uint128.ShiftRight128` | vm/src/uint256.c:106-125 | Division by 2^value, except exactly in place by 64 with a nonzero upper limb |
| `Uint128.Add128` | vm/src/uint256.c:223-227 | Addition modulo 2^128, also in place for either operand |
| `Uint128.Minus128` | vm/src/uint256.c:242-246 | Subtraction modulo 2^128, also in place |
| `Uint128.Or128` | vm/src/uint256.c:261-264 | Bitwise or, also in place |
| `Uint128.Greater128` | vm/src/uint256.c:201-206 | Compares the values |
| `Uint256.ShiftLeft256` | vm/src/uint256.c:81-104 | Multiplication by 2^value modulo 2^256, for any amount and in place |
| `Uint256.ShiftRight256` | vm/src/uint256.c:127-150 | Division by 2^value, for any amount and in place |
| `Uint256.Add256` | vm/src/uint256.c:229-240 | Addition modulo 2^256 with the carry between halves, also in place |
| `Uint256.Minus256` | vm/src/uint256.c:248-259 | Subtraction modulo 2^256 with the borrow between halves, also in place |
| `Uint256.Or256` | vm/src/uint256.c:266-269 | Bitwise or, also in place |
| `Uint256.Greater256` | vm/src/uint256.c:208-213 | Compares the values |
| `Uint256.Bits256` | vm/src/uint256.c:171-190 | The bit length, at most 256 |
| `Uint256.DivMod256` | vm/src/uint256.c:347-377 | Quotient and remainder of the values for every nonzero divisor, also when a result overwrites the dividend |
| `Uint256.DivideRound` | vm/src/uint256.c:366-373 | One round keeps dividend = quotient * divisor + remainder with the remainder below twice the scaled divisor |
| `Mul128.Mul128` | vm/src/uint256.c:271-314 | Multiplication modulo 2^128, also in place |
| `Mul128.ColumnsAreProduct` | vm/src/uint256.c:289-313 | The column sums of the schoolbook products add up to the product modulo 2^128 |
| `Uint256Text.ReverseString` | vm/src/uint256.c:379-387 | Reverses the text in place |
| `Uint256Text.ToString256` | vm/src/uint256.c:413-436 | For bases 2 to 16 writes the numeral of the value, most significant digit first and terminated, exactly when it fits |
| `NumeralText.NumeralDenotes` | vm/src/uint256.c:413-436 | That numeral evaluates to the value, has no leading zero, and is the only one |
| `Bcd.ShiftIn` | app/app-swap/src/btc/bcd.c:28-39 | One round doubles the decimal number and adds the bit, although only the digits from the moving index are touched |
| `Bcd.DoubleDabble` | app/app-swap/src/btc/bcd.c:22-41 | For every 64-bit amount the scratch digits are its 21 decimal digits |
| `Bcd.DisplayAmount` | app/app-swap/src/btc/bcd.c:7-77 | The text printed is the amount's, with no superfluous zero |
| `Decimals.AmountTextDenotes` | app/app-swap/src/btc/bcd.c:43-76 | That text denotes exactly value / 10^k without superfluous zeros or point, and is the only one that does |
| `EthAmount.AdjustDecimals` | app/app-swap/src/eth/utils.c:148-214 | Succeeds exactly with enough room and writes the text of value / 10^decimals |
| `EthAmount.ValueToString` | app/app-swap/src/eth/utils.c:216-229 | Ticker, space and the fee in ether, cut to the buffer |
| `EthAmount.DivideByTen` | app/app-swap/src/eth/utils.c:296-301 | Divides the limbs in place and returns the remainder |
| `EthAmount.Uint256ToDecimal` | app/app-swap/src/eth/utils.c:264-307 | Succeeds exactly for at most 32 bytes with enough room, and writes the same digits as base-10 `tostring256_implem` |
| `EthAmount.AmountToString` | app/app-swap/src/eth/utils.c:309-337 | Succeeds exactly with enough room, and writes the ticker followed by the text of amount / 10^decimals; writes past the buffer exactly when it is no longer than the ticker and the amount has at most 32 bytes |
| `EthAmount.WrappedRoomSuffices` | app/app-swap/src/eth/utils.c:327-330 | For a buffer no longer than the ticker the room wraps around, and no amount is refused for it |
| `Sha256.Context.Transform` | app/app-sha256/sha256sum.c:45-84 | The compression loop is the function of section 6.2.2 of FIPS 180-4 |
| `Sha256.ExpandBlock` | app/app-sha256/sha256sum.c:49-52 | The array holds the message schedule |
| `Sha256.Context.Update` | app/app-sha256/sha256sum.c:100-113 | Any split of a message into updates leaves the same state: the whole blocks hashed, the rest buffered |
| `Sha256.Context.Pad` | app/app-sha256/sha256sum.c:130-143 | Both branches leave the padding of section 5.1.1 of FIPS 180-4 up to the length |
| `Sha256.Context.Final` | app/app-sha256/sha256sum.c:126-169 | The digest is the fold of the compression function over the padded whole message |
| `Sha256.PaddingFills` | app/app-sha256/sha256sum.c:126-155 | The padding always completes a block |

## Left out

- Real cryptography: SHA-256 in the tree, HMAC, AES and the signatures are abstract as described above.
- The APDU transport, USB and BLE framing, the unpacking of the manifest and the derivation of keys; a reply that does not parse is the model's `NoReply`.
- Calls.Dispatch: display, buttons, big numbers, hashing, random bytes and cryptography end the model's run, as `sys_fatal` and `sys_exit` do the source's.
- The endless loop of `stream_run_app`: the model's run has a limit on the number of rounds, which can be any number.
- The 64-bit products of MULH and MULHSU are taken to wrap around. Signed DIV overflow and REMU by zero are modelled as the code computes them, which the "M" extension defines differently, and REM is not implemented in the code.
- The LFSR that picks the slot to evict: any slot is possible, so its statistics are not modelled.
- `init_caches` leaves the slots as they were; the model starts with every slot free, as after power-up.
- The manifest's guarantees are assumed: page-aligned, disjoint sections without page 0, initial data pages from the start of the data section to `bss`.
- `divmod128` and `tostring128`, which are the loops of the 256-bit versions on smaller numbers, and `mul256`.
- Callers' buffers: `tostring256_implem` and `uint256_to_decimal` write the terminator after the digits, so their buffers are longer than the digits. A write of `amountToString` past its buffer ends the model's method.
- `snprintf` is a copy cut to the buffer, which is what its two uses here need.
- RLP, EIP-712, BIP-32, JSON, protobuf, ELF and zip handling, and the rest of the applications around the modelled functions.
- Runs.Run: that an obstructed access does fail is not stated, since a counter at its last value matters only if its page is the one evicted.
