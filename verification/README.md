# Energy attestation: a model in Dafny

The system measures the energy that virtual machines, processes and GPUs use,
and makes the figures hard to falsify. A host enclave signs per-VM energy steps,
a file exporter relays them, a guest enclave admits or rejects them, and both
enclaves check the boot measurements they rely on. Admitted energy is attributed
to processes, batched into Merkle-rooted, hash-linked blocks, stored in Redis and
audited by a script. This project models that logic and proves what it promises.

**Committed records.** `Records`, `Merkle`, `MerkleProofs`, `Blockchain`
(modules `Blocks`, `Blockchains`): record encoding, the Merkle tree with promoted odd
nodes, inclusion proofs, and the block chain. `Checkpoint`, `BlockStore`,
`Flush` (module `Flushing`), `CrashSafety`, `Forks`,
`Batches`, `Continuity`: the signed chain-head anchor, the
store, and the flush that resumes after a restart, as a state machine with a
crash possible after every write. `Audit`, `Tenants`, `Fleet`: the per-tenant audit,
several tenants sharing one store, and many enclaves that interleave write by
write, crash and resume.

**Energy chain.** `EnergyChain`, `EnergyProtocol`, `Exporter`: signer, verifier
and exporter, and runs of all three over a channel that may lose, repeat,
reorder and alter messages. `Attribution`, `GpuExport`, `GpuConservation`:
division by weight, GPU baselines and the energy balance.

**Attestation.** `ImaLog`, `ImaLines`, `ImaCheck`, `ImaBinding`: the IMA log parser,
logs as the kernel writes them, the two PCR10 checks and what PCR10 binds. `Quote`: the TPM quote parser, after
section 10.12 of the TCG TPM 2.0 Library, Part 2. `SipTag`: the in-kernel
measurement tag against SipHash-2-4.

`Bytes`, `Codec`, `Text` and `Unicode` hold the shared byte-string, number and text
formats.

## How to read the theorems

SHA-256 and HMAC are parameters, so every theorem holds for every hash and every
MAC. Binding results do not assume that a hash is injective. They say "equal, or
the hash collides", where the collision (or the preimage of a named constant) is
always among an explicit finite set: the strings that these very computations
hashed. In the same way a forgery is an accepted text that was never signed.

Strings are UTF-8 byte sequences. Statics and objects that the code updates are
classes, and their methods are proved equal to a function of the old state;
the theorems are about runs of those functions. `dafny verify dfyconfig.toml`
checks everything.

The workspace builds with overflow checks in every profile, so an addition that
overflows ends the program. The exporter, the block numbers and the tree builder
are modelled that way.

## Where the code falls short of the obvious promise

Both of these have lemmas at concrete runs. As long as key listings are honest,
`Forks.RunExact` says exactly which runs break the chain in these two ways, and
that there is no third.

- A restart whose initial connection fails, or that can read neither the anchor
  nor the stored blocks, starts again at block 0 (`Forks.BlindStartForks`).
- An insert that fails after the block row is in place leads to two rows with
  one number (`Forks.LostInsertForks`).

Where the signer's sum would saturate at 2^64 - 1, the exporter's checked addition
ends the program first (`Exporter.OverflowEnds`; exact condition in
`Exporter.ExportTracksSigner`).

## Model

| member | source | states |
|---|---|---|
| `Records.EncodeRecordInjective` | sgx_vm/src/merkle.rs:38-48 | equal record encodings come from equal records, as long as each text field fits its 32-bit length prefix |
| `Records.DomainsDisjoint` | verified/src/lib.rs:480-495 | leaf, internal, root and chained-root preimages never coincide |
| `Records.RecordLayout` | verified/src/lib.rs:222-262 | at which offsets of an encoded record its version, pid, three 64-bit patterns and two length-prefixed texts lie |
| `Records.HashedLayout` | verified/src/lib.rs:359-373 | domain byte and operands of the four hashed forms, by offset |
| `Merkle.FoldLevelLoop` | sgx_vm/src/merkle.rs:111-140 | the pairwise loop produces the folded level: neighbours hashed together, an odd last node promoted unchanged |
| `Merkle.FoldToRootLoop` | verified/src/lib.rs:1150-1227 | the level loop computes the recursive fold of any nonempty leaf list |
| `Merkle.RootIsTreeHash` | sgx_vm/src/merkle.rs:281-307 | the fold over leaf hashes is the hash of one explicit binary tree |
| `Merkle.TreeLeaves` | sgx_vm/src/merkle.rs:79-151 | the leaves of that tree, left to right, are exactly the data in order |
| `Merkle.FoldIsSplit` | sgx_vm/src/merkle.rs:108-142 | for every leaf count the iterative fold with promotion builds the same tree as the recursive split at the largest power of two below n |
| `Merkle.FoldIsMerkleTreeHash` | sgx_vm/src/merkle.rs:108-142 | the computed subtree root is the Merkle Tree Hash of section 2.1 of RFC 6962 with this repository's leaf and node hashing |
| `Merkle.TreeBinding` | sgx_vm/src/merkle.rs:281-291 | two trees of any shapes with equal hashes have equal leaves, or the hash collides on strings they hash |
| `Merkle.RootBinding` | sgx_vm/src/merkle.rs:289-307 | equal committed roots mean the same leaf count and the same leaves, or a collision among the strings hashed |
| `MerkleProofs.NodesAboveCount` | sgx_vm/src/merkle.rs:79-151 | n leaves need n - 1 stored joins whatever is promoted |
| `MerkleProofs.FoldsIsLog` | sgx_vm/src/merkle.rs:79-151 | the number of levels above the leaves is the ceiling of log2 n, so n <= 2^(height - 1) |
| `MerkleProofs.BuildLevel` | sgx_vm/src/merkle.rs:111-140 | one round of the build loop gives the folded level and exactly its pair nodes, and says when the checked 32-bit position counter overflows: at levels of 2^33 nodes and more |
| `MerkleProofs.Build` | sgx_vm/src/merkle.rs:79-151 | root, leaf hashes, leaf count, height and all 2n - 1 nodes of the built tree; the empty list gives the empty tree; below 2^33 records no counter overflows |
| `MerkleProofs.NodesJoin` | sgx_vm/src/merkle.rs:111-140 | every node stored above the leaves holds the hash of its two stored children, and the last one is the root of the tree |
| `MerkleProofs.PairNodeJoins` | sgx_vm/src/merkle.rs:123-129 | node i of a level has that level, position i, and entries 2i and 2i + 1 of the level below as children |
| `MerkleProofs.Verify` | sgx_vm/src/merkle.rs:246-258 | the verification loop accepts exactly when climbing the zipped path and committing the leaf count gives the root |
| `MerkleProofs.GenerateProof` | sgx_vm/src/merkle.rs:184-231 | no proof exactly for an index out of range; otherwise the collected path is the sibling path, with promoted nodes contributing nothing |
| `MerkleProofs.ProofPathClimbs` | sgx_vm/src/merkle.rs:184-258 | climbing the sibling path of any node of any level reaches the root, in no more steps than there are folds |
| `MerkleProofs.ProofComplete` | sgx_vm/src/merkle.rs:184-258 | every generated proof verifies against the root, with length bounded by the tree |
| `MerkleProofs.ProveAndVerify` | sgx_vm/src/merkle.rs:79-258 | build, generate and verify together succeed for every record list and valid index, proof length <= height - 1 |
| `MerkleProofs.ClimbSound` | sgx_vm/src/merkle.rs:246-258 | a path of any length and directions that climbs from a leaf hash to a tree hash ends in a leaf of that tree, or the hash collides on strings hashed |
| `MerkleProofs.ProofSound` | sgx_vm/src/merkle.rs:246-291 | a proof that verifies against the root of a record list is for an encoding in that list, or the hash collides on the strings hashed by build and verify |
| `Blocks.NewBlock` | sgx_vm/src/blockchain.rs:31-61 | the constructed block carries the given number, tenant and predecessor, the batch root and the chained root |
| `Blocks.BlockVerdictExact` | sgx_vm/src/blockchain.rs:79-107 | a block verifies if and only if it is what the constructor makes of its own number, tenant, predecessor, records and time |
| `Blocks.VerifyBlockchain` | sgx_vm/src/blockchain.rs:269-307 | the verdict is valid exactly for a hash-linked chain from the zero root; otherwise the first offending block and its complaint |
| `Blocks.ComplaintNamesRepair` | sgx_vm/src/blockchain.rs:256-307 | a complaint names the value that is there and the value that would be right: with the right one in its place the block passes that check |
| `Blocks.ChainBinding` | sgx_vm/src/blockchain.rs:269-307 | two accepted chains with the same final root have the same length and the same encoded records in order, or yield a collision or a preimage of the zero digest |
| `Blocks.ChainBindsRecords` | sgx_vm/src/blockchain.rs:79-107 | the same down to the records themselves when their fields fit the length prefixes |
| `Blockchains.Blockchain.AddRecord` | sgx_vm/src/blockchain.rs:168-176 | appends to the buffer and emits a block exactly when the batch is full; ends in an overflow exactly when that block would use the last number |
| `Blockchains.Blockchain.FlushPending` | sgx_vm/src/blockchain.rs:178-183 | emits the pending records as a block, or nothing when there are none |
| `Blockchains.Blockchain.CreateBlock` | sgx_vm/src/blockchain.rs:185-201 | the block takes all pending records and the next number; buffer, root and number move on; the checked increment overflows at 2^64 - 1 |
| `Blockchains.RunConsistent` | sgx_vm/src/blockchain.rs:168-201 | after any interleaving of additions and flushes with any batch size, the emitted blocks form a valid chain and their records followed by the buffer are the input; only 2^64 operations can run the block number out |
| `Blockchains.BatchesFilled` | sgx_vm/src/blockchain.rs:168-183 | no emitted block is empty or larger than a batch, and the buffer never holds a full batch |
| `Blockchains.BlocksStamped` | sgx_vm/src/blockchain.rs:168-225 | every emitted block is the tenant's, ends with the last record of the operation that completed it, and carries that operation's time |
| `Blockchains.Drive` | sgx_vm/src/blockchain.rs:168-307 | driving the object through any operations gives blocks that verification accepts and loses, repeats or reorders no record |
| `Checkpoint.CheckpointMsgInjective` | verified/src/lib.rs:514-565 | the signed anchor message determines tenant, block number and root, also for tenants that contain the separator |
| `Checkpoint.ParseCheckpointLine` | verified/src/lib.rs:896-960 | the separator scan computes the field-wise reading: exactly five fields, the tag, this tenant, a decimal number, two 64-digit hashes |
| `Checkpoint.VerifyCheckpointLine` | sgx_vm/src/checkpoint.rs:324-334 | accepted exactly when the trimmed line parses for this tenant and its MAC is the one recomputed |
| `Checkpoint.AnchorAcceptedExactly` | sgx_vm/src/checkpoint.rs:324-334 | accepted with a number and root if and only if the trimmed line consists of tag, this tenant, that number and root, and the keyed MAC of the message made of them |
| `Checkpoint.CheckpointLayout` | verified/src/lib.rs:514-565 | where tag, tenant, number and root lie in the signed message, and the fields in the sealed bytes |
| `Checkpoint.AnchorRoundTrip` | sgx_vm/src/checkpoint.rs:313-334 | a written anchor is accepted with its own number and root if and only if the tenant text has no separator; with one, no line is ever accepted |
| `Checkpoint.ServedAnchorRoundTrip` | verified/src/lib.rs:159-220 | every tenant with a valid label, hence every tenant that is served, has its anchors accepted with their own number and root |
| `Checkpoint.SealedRoundTrip` | sgx_vm/src/checkpoint.rs:37-72 | decoding the sealed bytes of a checkpoint gives that checkpoint if and only if its name is valid UTF-8, as every Rust string is |
| `Checkpoint.SealedDecodeEncode` | sgx_vm/src/checkpoint.rs:46-72 | every string of at least 48 bytes decodes, and encodes back to itself if and only if the name part is valid UTF-8, since decoding is lossy |
| `Text.LossyExact` | sgx_vm/src/checkpoint.rs:64-64 | lossy decoding changes exactly the bytes that are not valid UTF-8 |
| `Unicode.LossyExample` | sgx_vm/src/checkpoint.rs:64-64 | the example of the Unicode Standard, section 3.9, comes out as printed there |
| `Unicode.CharacterExact` | sgx_vm/src/checkpoint.rs:64-64 | exactly the encodings of the Unicode scalar values count as characters |
| `Unicode.WhitespaceExact` | sgx/src/lib.rs:1094-1094 | exactly the encodings of the code points with the property White_Space are trimmed |
| `Unicode.TrimEndExact` | sgx/src/lib.rs:1094-1094 | white space added at the end makes no difference, and what is left does not end in any |
| `Unicode.TrimStartExact` | sgx_vm/src/checkpoint.rs:324-334 | the same at the start |
| `Unicode.LabelExact` | verified/src/lib.rs:159-204 | a tenant label is valid if and only if it is one to 64 ASCII letters, digits, full stops, low lines and hyphens, so it holds none of the separators |
| `Text.ParseU64Loop` | verified/src/lib.rs:662-688 | accepts exactly 1 to 20 digits with a value below 2^64, and returns that value |
| `Text.ParseU64Exact` | verified/src/lib.rs:662-688 | a text reads as a number if and only if it is the number's own decimal text behind leading zeros, of at most 20 digits in all |
| `Text.ParseUnsignedExact` | src/exporters/export_vm.rs:456-457 | an energy file reads as a number if and only if it holds the number's decimal text behind leading zeros, with or without a plus sign in front |
| `Text.HexDecodeLoop` | sgx/src/lib.rs:1270-1284 | two characters at a time computes the hexadecimal value, or nothing for odd length or a bad digit |
| `Codec.HexDecodeUpToCase` | sgx/src/lib.rs:1270-1284 | two texts that decode alike differ only in letter case |
| `Codec.HexCaseExact` | sgx/src/lib.rs:1270-1284 | for a text that decodes, the texts that decode to the same are exactly those that differ from it in letter case only |
| `Codec.HexIsLower` | sgx/src/lib.rs:691-691 | rendering uses digits and lower-case letters only |
| `Codec.DecCanonical` | sgx/src/lib.rs:685-692 | decimal text has no leading zeros |
| `BlockStore.GetLatestBlockState` | sgx_vm/src/redis_store.rs:556-599 | the scan over the keys, in any order, returns number and root of the row it should pick |
| `BlockStore.LatestIsMaximal` | sgx_vm/src/redis_store.rs:556-599 | the pick is the first listed of the tenant's rows with the greatest number, and there is none exactly if no row of the tenant is listed |
| `BlockStore.LatestOfChain` | sgx_vm/src/redis_store.rs:556-599 | for a well-formed chain the pick is its last row, whatever the key order |
| `BlockStore.AppendRow` | sgx_vm/src/main.rs:1949-1982 | an appended row keeps the chain if and only if it takes the next number and continues the head |
| `Flushing.Redis.InsertBlock` | sgx_vm/src/redis_store.rs:622-725 | which writes take effect under every failure point, and when the call reports success |
| `Flushing.Enclave.ReadHeads` | sgx_vm/src/main.rs:1893-1909 | anchor and stored head as the store shows them, absent on any read error |
| `Flushing.Enclave.InitializeFrom` | sgx_vm/src/main.rs:1884-1947 | resume, start fresh or refuse, and the counters that follow |
| `Flushing.Enclave.Append` | sgx_vm/src/main.rs:1949-2029 | the writes of one append in order, and the memory after it |
| `Flushing.Enclave.Flush` | sgx_vm/src/main.rs:1835-2030 | the whole flush as a function of memory, store and the replies it meets |
| `CrashSafety.DecisionExact` | verified/src/lib.rs:1398-1428 | stopped exactly when blocks are stored and the anchor is not the one for the last of them or the numbers are used up; otherwise memory is in step with the store |
| `Flushing.DecideFromExact` | verified/src/lib.rs:1398-1428 | the enclave resumes if and only if anchor and newest stored block are the same head, starts over if and only if there is neither, and each reason for refusing has its exact condition |
| `CrashSafety.ResumeExact` | sgx_vm/src/main.rs:1884-1947 | after a restart the enclave appends at exactly the last stored number and root, or refuses and writes nothing |
| `CrashSafety.NextKeepsInv` | sgx_vm/src/main.rs:1835-2030 | every flush, every crash after any prefix of its writes, and every foreign insert keeps the invariant |
| `CrashSafety.RunSafe` | sgx_vm/src/main.rs:1835-2030 | over all runs with crashes and restarts under faithful reads and honest insert errors, the tenant's rows are numbered 0, 1, 2, ... and each links to its predecessor |
| `CrashSafety.RefusedForGood` | sgx_vm/src/main.rs:1837-1842 | once resuming is refused, no later flush, crash or restart changes the tenant's stored blocks |
| `CrashSafety.StoppedForGood` | sgx_vm/src/main.rs:1837-1842 | the same for every stopped enclave of every clean run, whatever follows cleanly |
| `Batches.RecordsAccounted` | sgx_vm/src/main.rs:1949-2029 | in every run, whatever fails and wherever it crashes, the batches taken out of memory and the records still in it are exactly what was accumulated, in order, and the stored rows commit one to one to those batches whose append wrote its row |
| `Batches.IterationsExact` | sgx_vm/src/main.rs:2027-2028 | in every run the round counter is the number of times records were gathered since a flush or a crash last emptied the memory |
| `CrashSafety.AppendFromExact` | sgx_vm/src/main.rs:1949-2024 | one append from any memory keeps the chain if and only if it writes no row or the memory continues the chain |
| `Forks.RunExact` | sgx_vm/src/main.rs:1835-2030 | for every run from the empty store, whatever fails and wherever it crashes, under honest key listings: the stored blocks are numbered and linked if and only if no event writes a row while the enclave, by the replies alone, is not ready, that is blind over a nonempty chain or past a lost insert |
| `Forks.BlindStartForks` | sgx_vm/src/main.rs:1893-1947 | two runs that break the chain: a restart and a failed initial connection; a restart and a flush that reads nothing, whose fork shows one flush later |
| `Forks.LostInsertForks` | sgx_vm/src/redis_store.rs:622-725 | two runs that break the chain: an insert that fails after its row is in place, at once and after an outage |
| `Continuity.RunContinuous` | sgx_vm/src/main.rs:1884-1947 | for a store that answers anything at all, every created block starts a chain or continues an earlier block whose head this enclave signed, or the store showed an anchor MAC that was never made |
| `Continuity.FlushIsNext` | sgx_vm/src/main.rs:1835-2030 | the machine of that theorem takes memory where the flush takes it and records every block and head that the flush writes |
| `Audit.AuditOwner` | scripts/verify_redis_gpu.py:388-448 | the inner loop gives the report of one owner and whether it is clean |
| `Audit.WalkExact` | scripts/verify_redis_gpu.py:388-440 | an owner's walk is clean if and only if its blocks are linked and correctly hashed, the first predecessor taken on trust; then all are counted verified |
| `Audit.WalkStopsAt` | scripts/verify_redis_gpu.py:388-440 | the walk names the first block that does not continue the one before, is unreadable or is wrongly hashed, says which of these it is, and reports and counts every block in front of it as valid |
| `Audit.WalkBinding` | scripts/verify_redis_gpu.py:388-440 | two clean walks of equal length ending in the same chained root carry the same predecessor and Merkle digests in every row, or the hash collides on what they hash |
| `Tenants.AuditedRowsExact` | scripts/verify_redis_gpu.py:388-440 | on stored rows wherever they come from: the audit is clean if and only if every chained root is the hash of its own row and every predecessor is the root of the row before |
| `Audit.GroupByOwner` | scripts/verify_redis_gpu.py:367-378 | one entry per wanted owner that has a block in scope, holding exactly its block keys |
| `Audit.ScopeExact` | scripts/verify_redis_gpu.py:368-379 | a named tenant is audited on exactly the rows with its name from the given id on, and the rows without a name on their own, together with any named (unnamed) |
| `Audit.SortedScope` | scripts/verify_redis_gpu.py:381-382 | sorting an owner's keys gives its blocks in id order whatever order the keys came in |
| `Audit.VerifyChain` | scripts/verify_redis_gpu.py:363-450 | the results are the reports of exactly the wanted owners with blocks in scope, in name order, and the overall verdict is that all their walks are clean |
| `Audit.SortedNames` | scripts/verify_redis_gpu.py:381-381 | the owners in strictly ascending order of their bytes |
| `Audit.PrecedesExact` | scripts/verify_redis_gpu.py:381-381 | that order: the first byte that differs decides, and a proper prefix comes first |
| `Tenants.RunAllOk` | sgx_vm/src/redis_store.rs:622-649 | every interleaving of id allocation and row writes by several tenants keeps each tenant's rows numbered 0, 1, 2, ... and linked under one shared counter |
| `Tenants.AppendIsTakePut` | sgx_vm/src/main.rs:1949-1982 | an append of the flush is one allocation and one row write of this machine |
| `Tenants.FailedAppendIsTake` | sgx_vm/src/main.rs:1975-2024 | an append that fails before its row is an allocation alone, or nothing |
| `Tenants.AuditAcceptsAll` | scripts/verify_redis_gpu.py:363-450 | after every interleaving, the audit of every tenant from any starting id verifies all blocks in scope |
| `Tenants.ReportIndependent` | scripts/verify_redis_gpu.py:367-382 | an owner's report depends only on that owner's own rows |
| `Tenants.CrashedStoreAudits` | scripts/verify_redis_gpu.py:363-450 | the audit accepts the store left by any clean run with crashes and restarts |
| `Fleet.FleetSafe` | sgx_vm/src/main.rs:1835-2030 | many enclaves on one store: however their single writes interleave and wherever any of them crashes and resumes, every tenant's rows are numbered and linked, and every live enclave will append the next one |
| `Fleet.AloneIsFlush` | sgx_vm/src/main.rs:1835-2030 | a node of that machine that proceeds undisturbed does exactly what the flush does to memory and store |
| `Fleet.FleetAudits` | scripts/verify_redis_gpu.py:363-450 | the audit of any tenant accepts the store that such a history leaves |
| `EnergyChain.ChainTextInjective` | sgx/src/lib.rs:685-692 | the signed text determines counter, VM name, cumulative energy, delta and previous hash, for all values and all names |
| `EnergyChain.KeysSeparate` | sgx/src/lib.rs:230-242 | two VM names never have one signing key unless the MAC of the master key collides on their two key texts |
| `EnergyChain.ChainTextExample` | sgx/src/lib.rs:685-692 | one signed text, byte by byte |
| `EnergyChain.HostEnclave.SignUpdates` | sgx/src/lib.rs:662-718 | the signing loop as a function of the chains it started with |
| `EnergyChain.SignStepExtends` | sgx/src/lib.rs:678-718 | a signing step extends a VM's history by exactly one delta, with the counter, saturated sum and linkage that history implies |
| `EnergyChain.SatSumIsMin` | sgx/src/lib.rs:679-681 | the saturating running sum is the true sum capped at 2^64 - 1 |
| `EnergyChain.HistoryBinding` | sgx/src/lib.rs:685-718 | equal signatures at equal length bind the whole history, or the MAC collides on texts it signed |
| `EnergyChain.GuestEnclave.VerifyEnergyChain` | sgx_vm/src/lib.rs:195-311 | the result code and the new state of the one VM concerned; accepted exactly when the admission rule accepts |
| `EnergyChain.ResultExact` | sgx_vm/src/lib.rs:284-308 | every result code and exactly when it is given |
| `EnergyChain.RepeatSkipped` | verified/src/lib.rs:837-842 | an admitted step that comes again is skipped, and refused when it comes again with another energy |
| `EnergyProtocol.SameText` | sgx_vm/src/lib.rs:221-228 | the verifier rebuilds exactly the text that was signed |
| `EnergyProtocol.SignAllProjects` | sgx/src/lib.rs:662-718 | signing a batch extends each VM's history by its own deltas only |
| `EnergyProtocol.SignedOutputs` | sgx/src/lib.rs:712-718 | a batch returns one signed update per update, in order, each being the step its VM has reached at that point of the batch |
| `EnergyProtocol.RunContiguous` | sgx_vm/src/lib.rs:284-308 | over all runs that drop, repeat, reorder or alter messages and restart the signer, the accepted steps are a contiguous stretch of one incarnation's history, or the MAC was forged or collides |
| `EnergyProtocol.AcceptedEnergyConserved` | verified/src/lib.rs:813-861 | in every run, first accepted energy plus the later accepted deltas equals the last accepted energy, capped at 2^64 - 1 |
| `EnergyProtocol.LosslessAccepted` | sgx_vm/src/lib.rs:219-308 | a run in which each signing is followed by its delivery, from any point on, accepts every message in order, whether or not the sum saturates |
| `Exporter.VmEnergyExporter.AddOrCreate` | src/exporters/export_vm.rs:446-476 | the file holds the old value, 0 if unreadable, plus the delta; completes if and only if that fits 64 bits, and writes nothing otherwise |
| `Exporter.ExportedTotal` | src/exporters/export_vm.rs:399-476 | what is read back from the file falls only at the first step of a chain, which starts the total over; every other step adds its delta, nothing else is touched, and nothing is exported only on overflow |
| `Exporter.VmEnergyExporter.WriteUpdatesWithChain` | src/exporters/export_vm.rs:399-444 | a batch is exported update by update, overwriting at a restart and adding otherwise, with the chain metadata beside it, up to the first update that overflows |
| `Exporter.BatchIsRun` | src/exporters/export_vm.rs:399-444 | measuring one update after the other is signing them as one batch and exporting what it returns, up to the first overflow |
| `Exporter.ExportTracksSigner` | src/exporters/export_vm.rs:399-492 | in every run of signings and restarts the program stays up if and only if every VM's energy since the last restart fits 64 bits, and while it does every energy file holds exactly that sum and every metadata file the last signed step |
| `Exporter.ExportExact` | src/exporters/export_vm.rs:399-492 | as long as the program is up, exported energy, the signer's cumulative energy and the true sum are equal |
| `Exporter.OverflowEnds` | src/exporters/export_vm.rs:466-466 | a run of two measurements that ends in the overflow and leaves the files of the first |
| `Exporter.EndToEndAccepted` | sgx_vm/src/lib.rs:219-308 | as long as the program is up, what the exporter leaves on disk is accepted by a guest that admitted the step before it or nothing yet |
| `Attribution.SharesConserve` | verified/src/lib.rs:1665-1821 | shares add up to the total; every share but the heaviest is the rounded-down proportion, the heaviest gets less than n more, weight 0 gets nothing |
| `Attribution.FloorsFit` | verified/src/lib.rs:1625-1645 | rounded-down shares never exceed the total and leave less than one unit per share |
| `Attribution.AttributeByWeight` | verified/src/lib.rs:1665-1821 | the loops compute these shares, and give up exactly when all weights are zero |
| `Attribution.AttributeToProcesses` | sgx_vm/src/main.rs:1090-1176 | the two failure codes for zero weights and violated conservation are unreachable; the energy recorded under each pid is the sum of the shares of the processes with that pid; without any activity there is one entry for pid 0 |
| `Attribution.ChargedFairly` | sgx_vm/src/main.rs:1109-1154 | a process is charged its proportion rounded down, the last of the busiest up to one microjoule per process more, an idle one nothing |
| `GpuExport.GpuEnclave.ChargeReading` | sgx_vm/src/main.rs:1641-1752 | baseline, delta, rollback and attribution of one admitted reading |
| `GpuExport.GpuEnclave.HandleExport` | sgx_vm/src/main.rs:1493-1753 | exactly the readings before the first rejected one are charged; the status is 0 exactly when none is rejected, and otherwise says what is wrong with that one |
| `GpuExport.AdmittedExact` | sgx_vm/src/main.rs:1584-1639 | every charged reading has its evidence, a tag with its own energy and the recomputed hash under the given key, or no tag where none is enforced; the first one without evidence is answered -105, -127 or -102 |
| `GpuExport.RequestExact` | sgx_vm/src/main.rs:1470-1578 | readings are looked at exactly when the node has a valid label, no index occurs twice and the binding holds |
| `GpuExport.StateKeyExact` | sgx_vm/src/main.rs:1643-1651 | two devices share a baseline exactly when node, index and shortened UUID agree |
| `GpuExport.TakeCharsExact` | sgx_vm/src/main.rs:1643-1643 | the shortened UUID is the longest front of at most 48 characters |
| `GpuExport.ActiveExact` | sgx_vm/src/main.rs:1695-1711 | each process by itself: dropped when idle, capped at 100 otherwise |
| `GpuConservation.FirstIsEarliest` | sgx_vm/src/main.rs:1664-1675 | the first reading used in the balance is the earliest one of the device |
| `GpuConservation.PeakIsGreatest` | sgx_vm/src/main.rs:1674-1675 | the peak used in the balance is the greatest reading of the device |
| `GpuConservation.RowsForTotal` | sgx_vm/src/main.rs:1683-1752 | every delta is recorded in full: bracketed, idle or unattributed |
| `GpuConservation.RowsForExact` | sgx_vm/src/main.rs:1683-1752 | who is charged: up to 4000 joules the active processes by their shares; more than that, or with nobody active, one entry for pid 0 |
| `GpuConservation.GpuEnergyConserved` | sgx_vm/src/main.rs:1582-1753 | in every run of requests, including ones rejected part-way, recorded energy is the sum over devices of greatest minus first reading |
| `GpuConservation.ExportRun` | sgx_vm/src/main.rs:1582-1753 | the same of the object's own records, and each baseline is the device's greatest reading |
| `ImaLog.FindByte` | verified/src/lib.rs:1928-1953 | the first occurrence at or after a position, or none |
| `ImaLog.FindBounds` | sgx/src/lib.rs:1099-1119 | the loop finds the next four spaces, or fails as soon as one is missing |
| `ImaLog.ParseImaLog` | sgx/src/lib.rs:1088-1161 | the cursor loop computes the recursive reading of the log, or its first error |
| `ImaLog.ParseHomomorphism` | sgx/src/lib.rs:1088-1161 | for whole lines A and any B, parsing A followed by B gives A's records then B's, or the first error |
| `ImaLog.ParseConcat` | sgx/src/lib.rs:1088-1161 | the same with B parsed on its own and its offsets shifted by the length of A |
| `ImaLog.ReparsePrefix` | sgx/src/lib.rs:1201-1207 | reparsing the bytes up to the n-th record's end offset gives exactly the first n records |
| `ImaLines.LineRead` | sgx/src/lib.rs:1092-1126 | a line as written, with its newline, is read back as its fields |
| `ImaLines.LineExact` | sgx/src/lib.rs:1127-1158 | which lines are skipped, which measured and which refused with -3 or -4, and what the record of a measured line holds |
| `ImaLines.LogRead` | sgx/src/lib.rs:1088-1161 | a log of written lines parses if and only if every line of register 10 is well measured, and gives one record for each, in order, with its own file name |
| `ImaLines.ExampleRead` | sgx/src/lib.rs:1088-1255 | one line and its template, byte by byte |
| `ImaLines.GenuineAccepted` | sgx_vm/src/lib.rs:991-1057 | such a log is accepted by both enclaves for the register its own lines leave behind, unless that is all zeros |
| `ImaCheck.ReplayFindPrefix` | verified/src/lib.rs:1029-1080 | the shortest prefix, possibly empty, whose extends from zero reach the target; 0 exactly for the zero target |
| `ImaCheck.ReconcileExact` | sgx/src/lib.rs:1185-1213 | when reconciliation succeeds, that it keeps the shortest matching prefix, and which error it gives otherwise |
| `ImaCheck.TargetExact` | sgx/src/lib.rs:1189-1194 | the register text is taken as a given value if and only if it is the value's hexadecimal text in either letter case between any white space |
| `ImaCheck.VerifyHost` | sgx/src/lib.rs:1215-1227 | the host check: parse errors first, then a bad PCR10 text, an empty log, no matching prefix |
| `ImaCheck.VerifyGuest` | sgx_vm/src/lib.rs:991-1057 | the single-loop check of the guest: a bad PCR10 text first |
| `ImaCheck.SameFields` | sgx_vm/src/lib.rs:1014-1019 | four searches for a space and `splitn(5)` cut every line alike |
| `ImaCheck.FieldsExact` | sgx/src/lib.rs:1099-1126 | a line has given fields if and only if it is their join and only the last contains spaces |
| `ImaCheck.CheckersAgree` | sgx_vm/src/lib.rs:991-1057 | both enclaves accept the same pairs of log and PCR10 with equal counts and byte length; their answers differ exactly when both the log and the PCR10 text are malformed |
| `ImaCheck.ServedAgree` | sgx_vm/src/lib.rs:991-1057 | for every log and every text of 32 register bytes, which is all that callers pass, the two answers are the same, error codes included |
| `ImaCheck.CheckersDiffer` | sgx/src/lib.rs:1215-1227 | of the functions only, since no caller passes such a text: on a one-word log and an empty PCR10 text the host answers -2 and the guest -5 |
| `ImaCheck.AcceptedExactly` | sgx/src/lib.rs:1185-1227 | accepted if and only if the log parses and some nonempty prefix replays to a nonzero 32-byte target |
| `ImaCheck.OwnReplayAccepted` | sgx/src/lib.rs:1199-1211 | a log is accepted for the value that any nonempty prefix of its own records replays to, stale ones included, if and only if that value is not all zeros; at most that prefix is attested |
| `ImaCheck.AttestedPrefixStands` | sgx/src/lib.rs:1201-1207 | cutting the log at the attested byte length keeps exactly the attested records, and that cut log is attested whole |
| `ImaBinding.ExtractGpuStack` | sgx/src/lib.rs:1531-1559 | the loop fills the map of the latest hash per GPU-stack path |
| `ImaBinding.ExtractHypervisor` | sgx/src/lib.rs:1561-1592 | the loop fills the map of the latest hash per hypervisor file name |
| `ImaBinding.LatestExact` | sgx/src/lib.rs:1531-1592 | the map holds exactly the keys written, each with its last value |
| `ImaBinding.GpuStackExact` | sgx/src/lib.rs:1541-1549 | which paths are reported: the five kernel modules in any directory below the module tree, and the management library in any version and directory |
| `ImaBinding.HypervisorExact` | sgx/src/lib.rs:1569-1577 | which file names are reported: a QEMU system emulator, perhaps with `.real` behind it, and the two TPM emulator programs |
| `ImaBinding.MeasuredHashValue` | sgx/src/lib.rs:1551-1555 | the reported hash of a measured record is its whole file hash |
| `ImaBinding.HashValueExact` | sgx/src/lib.rs:1551-1555 | the reported hash is the part after the first colon and before the second, and the whole text if it has no colon |
| `ImaBinding.ReplayBinding` | verified/src/lib.rs:998-1023 | two replays with the same result have the same extends, or yield a collision or a preimage of the zero digest |
| `ImaBinding.TemplateBinding` | sgx/src/lib.rs:1229-1255 | the hashed template determines the path and the file hash up to letter case, as long as neither length prefix is cut |
| `ImaBinding.ShortLinesFit` | sgx/src/lib.rs:1247-1250 | no length prefix is cut in a log whose lines are shorter than 2^32 bytes |
| `ImaBinding.ServedLogFits` | sgx/src/lib.rs:1247-1250 | nor in the attested part of any log below 2^32 bytes, hence of any log that arrives in a request |
| `ImaBinding.WideLogsAmbiguous` | sgx/src/lib.rs:1088-1255 | of the functions only, since no request is that large: two logs, one with a path of more than 2^32 bytes, that reconcile with the same PCR10 and differ in whether a software TPM is reported, for every hash that does not send their extend to zero |
| `ImaBinding.Pcr10Binds` | sgx/src/lib.rs:1088-1255 | two logs that reconcile with the same PCR10, and in whose attested part no length prefix is cut, give the same measurements, GPU-stack map and hypervisor map up to letter case, or a collision, or a preimage of the zero or all-ones digest |
| `ImaBinding.Pcr10BindsServed` | sgx/src/lib.rs:1088-1255 | the same for all logs below 2^32 bytes with no further condition |
| `Quote.VerifyQuoteHost` | sgx/src/lib.rs:2061-2184 | the offset parser of the host gives the reference verdict, fault by fault, without reading out of range |
| `Quote.VerifyQuoteGuest` | sgx_vm/src/lib.rs:1434-1557 | the offset parser of the guest gives the same reference verdict |
| `Quote.VerdictExact` | sgx/src/lib.rs:2061-2184 | accepted with a body if and only if the attestation is the serialisation of a quote with the expected nonce, one sha256 bank with PCRs 0, 7 and 10 and the digest of the supplied PCRs, with no trailing bytes, and the signature is the serialisation of that body |
| `Quote.BitmapSelects` | sgx/src/lib.rs:2130-2142 | the bitmap passes if and only if it covers three bytes and selects PCRs 0, 7 and 10 and no other |
| `Quote.QuoteBinds` | sgx/src/lib.rs:2098-2165 | one attestation is accepted for at most one nonce, and for two sets of PCR values only if they collide |
| `SipTag.Round` | src/sensors/ebpf_gpu_tag.c:37-42 | the in-place round is the round of the SipHash paper |
| `SipTag.AbsorbWord` | src/sensors/ebpf_gpu_tag.c:44-46 | one absorbed word is one compression |
| `SipTag.Siptag` | src/sensors/ebpf_gpu_tag.c:48-71 | the unrolled tag is byte-level SipHash-2-4 of the 32-byte little-endian field encoding, for all keys and fields |
| `SipTag.PaperVector` | verified/src/lib.rs:1254-1351 | the reference gives the published value of appendix A of the SipHash paper |
| `SipTag.AbsorbFields` | verified/src/lib.rs:1284-1311 | absorbing the encoded bytes is absorbing the four packed words and the length block |
| `SipTag.PackRoundTrip` | src/sensors/ebpf_gpu_tag.c:56-57 | unpacking the four words gives the fields back |
| `SipTag.PackInjective` | src/sensors/ebpf_gpu_tag.c:56-57 | different fields never pack to the same words |

## Left out

- TLS, sockets, the Redis wire client, ImmuDB and JSON: replaced by abstract maps and by replies passed in as parameters.
- SHA-256, HMAC, RSA and ECDSA internals, random numbers and SGX key derivation: one master key is a parameter, and both enclaves derive the per-VM key from it alike, which real SGX key policies need not do (sgx/src/lib.rs:140-143, sgx_vm/src/lib.rs:28-40).
- The ECDSA public anchor (`gpu_anchor_sig`): resuming does not read it, so it would only add a write.
- Floating point: energy is counted in integer microjoules, and the floating-point fields of a record are opaque 64-bit patterns.
- Sealed checkpoint files: only their byte format is modelled, not storage or the sealing MAC.
- Resuming the CPU path from Redis (sgx_vm/src/main.rs:1229-1263), and mixing CPU and GPU exports or several tenants in one enclave: one GPU tenant per instance is modelled.
- The tree and block copies that a stored block keeps in memory, and the record and node lists of a stored block: only the block row decides resuming and auditing.
- `block:*` keys with malformed ids, which both readers skip.
- Audit.VerifyChain: hexadecimal fields with inner whitespace or of a length other than 64 count as malformed. Python's `fromhex` reads them, and the encoder behind the script then takes 32 bytes whatever was read.
- Audit.AuditOwner: the same.
- Tenants.AuditAcceptsAll: tenant names are nonempty, as every valid label is, because the audit files rows without a name under the label `(unnamed)`.
- CrashSafety.RunSafe: other writers act between flushes, not inside one; `Fleet.FleetSafe` interleaves single writes. There the two reads of a resume happen at one instant.
- EnergyChain.HostEnclave.SignUpdates: the signer's counter is unbounded, where the code's 64-bit counter would end the program after 2^64 steps; the batch is assumed to fit the output buffer that truncates its JSON (sgx/src/lib.rs:749-762).
- Exporter.VmEnergyExporter.WriteUpdatesWithChain: file system failures part-way.
- GpuExport.GpuEnclave.HandleExport: row labels, owner names and registry lookups are parameters or omitted; the tag function is a parameter over key, epoch, device index and claimed reading, and `SipTag` proves what that function is.
- Lossy UTF-8 conversion of request bytes; request texts are valid UTF-8 here.
- The guest's text-based re-extraction of hashes (sgx_vm/src/lib.rs:715-771) and the choice of the collector's own hash: the record-based extraction of the host is modelled.
- Blocks.NewBlock: a batch of 2^33 records, on which building the tree ends in the overflow that `MerkleProofs.Build` reports, still gives its block.
- The Python single-record proof (scripts/verify_redis_gpu.py:487-615): it neither promotes odd nodes nor commits the leaf count, so it is a different check from `MerkleProof::verify`.
- eBPF map handling and memory protection, TPM command wrappers, the command line and the other exporters.
