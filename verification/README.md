# Verified models of the ledger core

A Dafny project that models the hardest parts of the repository and proves what they are for.
`dafny verify dfyconfig.toml` checks all of it.

**Incremental Merkle tree and witness** (`MerkleSpec`, `MerkleTree`). A tree of any depth is kept as a
frontier: two leaves and a list of optional subtree roots that behaves like a binary counter. A witness freezes
a tree and stays current through `filled`, `cursor` and `cursor_depth`. The reference is the naive full binary
tree over all leaves ever appended, padded with empty leaves (sections 3.8 and 4.9 of the Zcash Protocol
Specification). `Hash::combine` is an arbitrary function and the depth any number.

**Equihash** (`Bits`, `BitStream`, `EquihashPacking`, `EquihashTree`, `EquihashBinding`, `EquihashVerify`,
`EquihashSolve`, `Equihash`). Bit packing through a 32-bit accumulator, the tree verifier, and the basic solver with its
in-place collision rounds, for every N and K that meet the width conditions; BLAKE2b is an arbitrary function
from block number to bytes. The reference is the index tree, shown to be the same as the conditions on
the flat list of indices in section 7.7.1 of the Zcash Protocol Specification. The solver is proved sound and complete: it passes on only valid solutions, none of them twice,
and when it gives up it has passed on all of them.

**Script machine** (`ScriptNum`, `Script`, `ScriptCounts`, `SigEncoding`, `Machine`, `MachineSafety`, `RunLaws`,
`StackEffects`, `OpcodeLaws`, `Interpreter`, `VerifyScript`, `Multisig`, `Sign`, `MultisigSpend`, `PubkeySpend`).
Every opcode of the byte-coded stack machine, its limits, the greedy m-of-n signature scan, the static
signature-operation counts, the verification of a pair of scripts under each rule, and the signing side that has to
satisfy it, up to the acceptance of pay-to-pubkey, pay-to-pubkey-hash and multisig inputs. Opcodes are pinned by what
they compute and by equations between them that hold on every stack. Signature checks, lock-time checks and hashes are
arbitrary functions; hash outputs have their fixed lengths. A state also counts the calls of the signature check, so
that the static counts can be compared with it.

**256-bit arithmetic** (`Limbs`, `Arith256`, `Compact`). Limb arithmetic updated in place, for any number of
limbs, with shift-and-subtract division, and the floating compact form of difficulty targets.

**SHA-256 buffering** (`Sha256`), **fixed-point amounts** (`FixedPoint`, `FixedPointParser`) and the wallet's
own **UTF-8** converters (`Utf8`): the hasher state as a function of the concatenated input, the exact set of
strings an amount is accepted from, and the exact sets of strings on which writing undoes reading and reading undoes
writing.

Where the code and its own words differ, the model follows the code:

- `interpreter.cpp:197-199` says the error is already set when the low-S test fails, but nothing sets it, so the
  outcome is the unknown error; `Interpreter.LowSErrorIsUnknown` says exactly when, `Interpreter.ShortSigRefused` is an
  example.
- `CombineSignatures` relies on `PushAll` reproducing a stack. Under the minimal-push rule the script it builds
  for a stack holding the single byte 0x81 fails; `Sign.PushAllRoundTrip` gives the exact condition.
- The assertions of `CompressArray` admit an output longer than the whole groups of its input can fill, for which it
  reads past the input; `EquihashPacking.PartialGroupReadsPast` is an example and `ReadsInside` the exact condition.
- `x *= x` on one object yields zero, because the operand is read after it was cleared. `MulAssign` states both
  cases, `Arith256.SquareOneInPlace` is an example, and `Arith256.AliasedSquareIff` says when zero is the right answer.
- The five- and six-byte branches of `UTF8toUnicode` use the lead byte for every position. Six wide characters
  above 0x1FFFFF survive by accident; `Utf8.WriteThenRead` names them.
- `is_valid_utf8` sees a C string and says nothing about bytes behind an embedded zero byte;
  `Utf8.NothingBeyondZero` is the example and `Utf8.ValidRoundTripsIff` the exact condition.
- `ParseFixedPoint` refuses a zero whose written exponent plus `decimals` is outside 0 to 17, although zero is
  representable; `FixedPoint.RefusedZero` is an example and `FixedPoint.HasAmount` has the exact condition.

## Model

| member | source | states |
|---|---|---|
| `MerkleSpec.TreeIsNaive` | zcash/IncrementalMerkleTree.cpp:104-138 | after any list of at most 2^depth appends the frontier is canonical, counts exactly the leaves, and its root is the root of the full binary tree padded with empty leaves |
| `MerkleSpec.AppendAllRoot` | zcash/IncrementalMerkleTree.cpp:104-138 | appending leaves to any canonical frontier gives the root of the frontier's tree with those leaves fed in at the next free positions |
| `MerkleSpec.AppendedCanonical` | zcash/IncrementalMerkleTree.cpp:52-71 | an append below capacity keeps the well-formedness check and adds one to the count |
| `MerkleSpec.CompleteIffFull` | zcash/IncrementalMerkleTree.cpp:144-160 | the shape test for completeness holds exactly when the count is 2^depth |
| `MerkleSpec.NextDepthIsSlot` | zcash/IncrementalMerkleTree.cpp:165-197 | walking the parents with a skip count finds the level of exactly the skip-th free slot |
| `MerkleSpec.SlotsCapacity` | zcash/IncrementalMerkleTree.cpp:165-197 | the free slots have together exactly the room that is left below 2^depth |
| `MerkleSpec.FillersGiveRoot` | zcash/IncrementalMerkleTree.cpp:201-230 | for every canonical tree and further leaves, the root computed with the roots of the filled slots is the root after appending those leaves |
| `MerkleSpec.PathGivesRoot` | zcash/IncrementalMerkleTree.cpp:235-285 | folding the last leaf up the authentication path gives the root for every filler list, and the index bits spell the leaf's position |
| `MerkleSpec.FillersAfter` | zcash/IncrementalMerkleTree.cpp:287-321 | completing one more slot extends the filler list by exactly that subtree's root |
| `MerkleTree.EmptyMerkleRoots.constructor` | zcash/IncrementalMerkleTree.hpp:37-42 | the table holds the root of the empty tree at every level |
| `MerkleTree.PathFiller.Next` | zcash/IncrementalMerkleTree.cpp:32-41 | takes the queue's front, or the empty root of the asked level when the queue is empty |
| `MerkleTree.IncrementalMerkleTree.WfCheck` | zcash/IncrementalMerkleTree.cpp:52-71 | succeeds exactly on canonical frontiers |
| `MerkleTree.IncrementalMerkleTree.Last` | zcash/IncrementalMerkleTree.cpp:74-82 | the most recent leaf, or an error exactly when there is none at the bottom |
| `MerkleTree.IncrementalMerkleTree.GetSize` | zcash/IncrementalMerkleTree.cpp:85-101 | the number of leaves the frontier stands for |
| `MerkleTree.IncrementalMerkleTree.IsComplete` | zcash/IncrementalMerkleTree.cpp:144-160 | true exactly when 2^d leaves are in |
| `MerkleTree.IncrementalMerkleTree.Append` | zcash/IncrementalMerkleTree.cpp:104-138 | appends the leaf to the frontier's list, or refuses and changes nothing, exactly at 2^depth leaves |
| `MerkleTree.IncrementalMerkleTree.Propagate` | zcash/IncrementalMerkleTree.cpp:118-137 | the loop over the parents is the carry of a binary counter |
| `MerkleTree.IncrementalMerkleTree.NextDepth` | zcash/IncrementalMerkleTree.cpp:165-197 | the level of the skip-th free slot, or at least the depth when there is none |
| `MerkleTree.IncrementalMerkleTree.RootAt` | zcash/IncrementalMerkleTree.cpp:201-230 | the climb through the parents with fillers consumed in order |
| `MerkleTree.IncrementalMerkleTree.Root` | zcash/IncrementalMerkleTree.hpp:81-83 | the root of the naive padded tree over the leaves |
| `MerkleTree.IncrementalMerkleTree.Path` | zcash/IncrementalMerkleTree.cpp:235-285 | a path that folds from the last leaf to the root with the same fillers, or an error exactly when the bottom is empty |
| `MerkleTree.IncrementalWitness.constructor` | zcash/IncrementalMerkleTree.hpp:86-88 | a fresh witness of a tree, with nothing appended |
| `MerkleTree.IncrementalWitness.PartialPath` | zcash/IncrementalMerkleTree.cpp:288-296 | the roots of all slots filled so far, the open one included |
| `MerkleTree.IncrementalWitness.Root` | zcash/IncrementalMerkleTree.hpp:150-152 | the root of the tree with all later leaves appended |
| `MerkleTree.IncrementalWitness.Path` | zcash/IncrementalMerkleTree.hpp:140-142 | a path from the witnessed leaf to that same current root |
| `MerkleTree.IncrementalWitness.Element` | zcash/IncrementalMerkleTree.hpp:146-148 | the witnessed leaf |
| `MerkleTree.IncrementalWitness.Reload` | zcash/IncrementalMerkleTree.hpp:159-165 | recomputing the cursor depth keeps the witness invariant and everything it denotes |
| `MerkleTree.IncrementalWitness.Append` | zcash/IncrementalMerkleTree.cpp:299-321 | records the leaf and keeps the cursor invariant, or refuses exactly when the tree itself would be full |
| `EquihashPacking.ExpandArray` | crypto/equihash.cpp:58-99 | writes exactly the bit-stream elements of the input, padded, with no live accumulator bit lost |
| `EquihashPacking.CompressArray` | crypto/equihash.cpp:101-138 | writes exactly the bit stream of the input's elements, for every input length at which the loop's reads stay inside the input |
| `EquihashPacking.WholeGroupsInside` | crypto/equihash.cpp:108-138 | an input of whole groups is always read inside its bounds |
| `EquihashPacking.PartialGroupReadsPast` | crypto/equihash.cpp:108-138 | an input length the assertions admit and the loop reads past |
| `EquihashPacking.UnpackPacked` | crypto/equihash.cpp:58-140 | unpacking what was packed gives the elements back |
| `EquihashPacking.PackUnpacked` | crypto/equihash.cpp:58-140 | packing what was unpacked gives the bytes back |
| `EquihashPacking.ExpandCompressed` | crypto/equihash.cpp:58-140 | expansion undoes compression on element arrays |
| `EquihashPacking.CompressExpanded` | crypto/equihash.cpp:58-140 | compression undoes expansion on packed arrays |
| `EquihashTree.DistinctIsDisjoint` | crypto/equihash.tcc:11-21 | comparing four-byte groups decides whether two index lists are disjoint |
| `EquihashTree.IndexOrder` | crypto/equihash.h:100 | comparing the index bytes of disjoint lists compares their first indices |
| `EquihashTree.MergedRow` | crypto/equihash.cpp:229-243 | merging the rows of two index trees gives the row of the joined tree |
| `EquihashTree.ValidTreeDistinct` | crypto/equihash.cpp:723-768 | all indices of a valid tree are distinct |
| `EquihashTree.SolutionXor` | crypto/equihash.cpp:723-768 | for a valid tree, the final row is zero exactly when the exclusive-or of all leaf hashes is zero |
| `EquihashVerify.HasCollision` | crypto/equihash.cpp:276-284 | the first bytes agree |
| `EquihashVerify.IsZero` | crypto/equihash.cpp:253-261 | the first bytes are all zero |
| `EquihashVerify.DistinctIndices` | crypto/equihash.tcc:11-21 | no four-byte group occurs in both rows |
| `EquihashVerify.Merge` | crypto/equihash.cpp:229-243 | the xor of the hash parts after the trim, then the indices in order |
| `EquihashVerify.CheckTree` | crypto/equihash.cpp:738-768 | the level-by-level loop accepts exactly the valid index trees whose final row is zero |
| `EquihashSolve.CollideRound` | crypto/equihash.cpp:355-404 | colliding a sorted table in place leaves exactly the multiset of merges of all pairs that collide and share no index |
| `EquihashSolve.RoundSound` | crypto/equihash.cpp:352-408 | every row a round leaves is the row of a valid index tree one level up |
| `EquihashSolve.RoundComplete` | crypto/equihash.cpp:352-408 | every valid index tree one level up has its row in the round's result |
| `Equihash.InstancesGood` | crypto/equihash.h:198-201 | the four instantiations meet the width conditions |
| `Equihash.RowsFitBuffers` | crypto/equihash.h:176-177 | no row at any level outgrows its fixed-width buffer, the last merge, which trims nothing, included |
| `Equihash.GetIndicesFromMinimal` | crypto/equihash.cpp:172-186 | the elements packed in a byte string of any length whose last index lies inside the buffer |
| `Equihash.GetMinimalFromIndices` | crypto/equihash.cpp:188-203 | the packed form of the low bits of any 32-bit indices |
| `Equihash.IndexRoundTripIff` | crypto/equihash.cpp:172-203 | a packed index list unpacks to itself exactly when every index fits its width |
| `Equihash.SolutionsArePacked` | crypto/equihash.cpp:172-203 | solutions and solution trees correspond one to one through packing |
| `Equihash.ValidSolutionMeaning` | crypto/equihash.cpp:723-768 | a valid solution has the right length, distinct indices and leaf hashes whose exclusive-or is zero |
| `EquihashBinding.ValidOnList` | crypto/equihash.cpp:748-765 | a tree passes exactly when in every block of every level the leading bytes of the exclusive-or of its leaves cancel and its halves are in order, and no index repeats |
| `Equihash.ValidSolutionIff` | crypto/equihash.cpp:723-768 | a solution is valid exactly when it has the right length, its indices do not repeat, every block of every level is bound in that way, and all leaves cancel (section 7.7.1 of the Zcash Protocol Specification) |
| `Equihash.SlicesCover` | crypto/equihash.cpp:341-347 | the slices of the indices of a hash output, in order, are exactly that output |
| `Equihash.LeafPacksBack` | crypto/equihash.cpp:732-738 | packing the leaf of an index gives back its own N/8 bytes of its own hash output |
| `Equihash.IsValidSolution` | crypto/equihash.cpp:723-768 | true exactly when the index tree meets collision, order and distinctness at every level and ends in zero |
| `Equihash.CollideRounds` | crypto/equihash.cpp:352-408 | the table after the rounds holds exactly the valid index trees of that level |
| `EquihashSolve.RoundOnce` | crypto/equihash.cpp:352-408 | a round from a table without repeated rows leaves one: each row comes from one pair |
| `Equihash.OnlyOneOffers` | crypto/equihash.cpp:410-440 | a packed solution determines the two rows of the last table it was made from |
| `Equihash.BasicSolve` | crypto/equihash.cpp:329-445 | every solution passed on is valid and passed on once; a reported success is the last one passed on, all earlier ones having been refused; without success every valid solution was passed on and refused |
| `ScriptNum.DecodeEncode` | script/script.h:300-349 | every number survives serialization |
| `ScriptNum.EncodeDecode` | script/script.h:215-232 | a minimal byte string is the serialization of its number |
| `ScriptNum.EncodeMinimal` | script/script.h:300-331 | serialization is always minimal |
| `ScriptNum.ReadNumRange` | script/script.h:209-234 | four-byte operands lie strictly between -2^31 and 2^31 |
| `ScriptNum.Serialize` | script/script.h:300-331 | the loop computes the sign-and-magnitude encoding |
| `ScriptNum.SetVch` | script/script.h:334-349 | the loop computes the number of up to eight bytes, with every intermediate and the result within 64 bits |
| `ScriptNum.Construct` | script/script.h:209-234 | the number, or the exception exactly on too many bytes or, when asked, a non-minimal encoding |
| `Script.GetPush` | script/script.h:416-443 | an element pushed anywhere in a script is read back whole by the instruction reader |
| `ScriptCounts.GetOpIff` | script/script.h:481-531 | the reader returns an instruction exactly when its bytes stand there: opcode, little-endian length field if there is one, and data |
| `ScriptCounts.CountsExact` | script/script.cpp:166-188 | the legacy count is the number of CHECKSIGs plus twenty times the number of CHECKMULTISIGs among the opcodes read, and the accurate count takes off twenty minus n for each right after the small integer n |
| `ScriptCounts.PushOnlyIff` | script/script.cpp:223-239 | push-only means readable to the end with no opcode above 0x60 |
| `ScriptCounts.LastPushCounted` | script/script.cpp:190-212 | for an input that ends with a push the spending count is the accurate count of the pushed data |
| `ScriptCounts.ScriptHashTemplate` | script/script.cpp:214-221 | the template test holds of exactly the scripts built for a 20-byte hash |
| `ScriptCounts.SmallIntegers` | script/script.h:533-547 | the opcodes of the numbers 0 to 16, read back |
| `Script.GetSigOpCount` | script/script.cpp:166-188 | the counting loop sums the static cost of each instruction up to the first unreadable one |
| `Script.GetSigOpCountSpending` | script/script.cpp:190-212 | the count through pay-to-script-hash, from the last pushed data of a push-only input |
| `Script.AccurateIsLower` | script/script.cpp:166-188 | the accurate count never exceeds the legacy count |
| `Script.IsPushOnly` | script/script.cpp:223-239 | every instruction is readable and at most OP_16 |
| `SigEncoding.ValidEncodingIff` | script/interpreter.cpp:99-162 | the byte-by-byte test accepts exactly the DER sequences of two minimal non-negative integers with a hash-type byte, up to 73 bytes |
| `MachineSafety.StepKeepsLimits` | script/interpreter.cpp:266-947 | every completed step keeps elements within 520 bytes, operations within 201 and both stacks within 1000 together |
| `MachineSafety.ReachableWithinLimits` | script/interpreter.cpp:264-948 | the limits hold in every state a run can reach |
| `MachineSafety.EvalSmall` | script/interpreter.cpp:236-958 | a successful run ends within the limits |
| `MachineSafety.ScanCalls` | script/interpreter.cpp:881-910 | the scan makes at most one check per key |
| `MachineSafety.ExecuteLeavesLast` | script/interpreter.cpp:300-335 | a small integer just executed is on top of the stack, and one skipped leaves the run skipping |
| `MachineSafety.StepChecks` | script/interpreter.cpp:266-947 | a step makes no more signature checks than the static cost of its instruction |
| `MachineSafety.EvalChecks` | script/script.cpp:166-188 | for every script, stack, flags and checker, the signature checks of a run are at most the accurate count, which is at most the legacy count |
| `MachineSafety.EvalIgnores` | script/interpreter.cpp:236-958 | what a script computes does not depend on the pay-to-script-hash, push-only and clean-stack rules |
| `MachineSafety.EvalErrors` | script/interpreter.cpp:236-958 | no run ends in an error of the pair of scripts |
| `RunLaws.SuccessNeeds` | script/interpreter.cpp:266-958 | no run succeeds unless the script is readable to its end, has no disabled opcode, VERIF or VERNOTIF even where skipped, at most 201 operations, and as many ENDIFs as IFs and NOTIFs |
| `RunLaws.NopsIff` | script/interpreter.cpp:276-277 | exactly 201 operations are allowed |
| `RunLaws.PlainEval` | script/interpreter.cpp:305-822 | a script of one operation does to any stack what the operation does |
| `StackEffects.Moving` | script/interpreter.cpp:519-646 | the swaps, erasures and insertions of the moving opcodes have the documented effect on the top of any stack |
| `StackEffects.MovesConserve` | script/interpreter.cpp:519-635 | the moving opcodes only reorder: no element is lost, copied or changed |
| `StackEffects.RollConserves` | script/interpreter.cpp:599-615 | ROLL consumes its number and only reorders the rest |
| `StackEffects.PickAndRoll` | script/interpreter.cpp:599-615 | PICK copies and ROLL moves the element as deep as the number on top says |
| `StackEffects.Arithmetic` | script/interpreter.cpp:721-776 | on every pair of operands in range, the two-operand opcodes leave the encoded sum, difference, minimum, maximum, comparison or logical result |
| `StackEffects.WithinRange` | script/interpreter.cpp:778-792 | WITHIN tests the half-open range |
| `StackEffects.Branches` | script/interpreter.cpp:394-427 | IF runs the first branch exactly on a true condition, ELSE exactly the other, and ENDIF restores the enclosing state |
| `StackEffects.AltRoundTrip` | script/interpreter.cpp:453-469 | FROMALTSTACK undoes TOALTSTACK |
| `OpcodeLaws.Copies` | script/interpreter.cpp:481-597 | DUP, OVER, 2DUP, 3DUP and 2OVER equal PICKs on every stack, errors included |
| `OpcodeLaws.Moves` | script/interpreter.cpp:519-635 | SWAP, ROT, 2SWAP and 2ROT equal ROLLs on every stack, errors included |
| `OpcodeLaws.SwapThen` | script/interpreter.cpp:579-647 | NIP is SWAP DROP and TUCK is SWAP OVER |
| `OpcodeLaws.DropTwice` | script/interpreter.cpp:471-479 | 2DROP is DROP DROP |
| `OpcodeLaws.DropUndoes` | script/interpreter.cpp:561-568 | DROP undoes a push |
| `OpcodeLaws.DepthReaches` | script/interpreter.cpp:553-559 | DEPTH 1SUB PICK copies the bottom element |
| `OpcodeLaws.SizeReads` | script/interpreter.cpp:649-658 | SIZE keeps the element and leaves a number that reads as its length |
| `OpcodeLaws.IfDup` | script/interpreter.cpp:542-551 | IFDUP is DUP on a true top and nothing on a false one |
| `OpcodeLaws.SmallNumbers` | script/interpreter.cpp:311-333 | the opcodes 0x4f and 0x51 to 0x60 push the numbers -1 and 1 to 16 |
| `OpcodeLaws.WithConstant` | script/interpreter.cpp:695-719 | 1ADD, 1SUB, NOT and 0NOTEQUAL equal a constant and a two-operand opcode on every stack, errors included |
| `OpcodeLaws.NegateIsSub` | script/interpreter.cpp:695-719 | NEGATE is 0 SWAP SUB |
| `OpcodeLaws.AbsIsMax` | script/interpreter.cpp:695-719 | ABS is DUP NEGATE MAX |
| `OpcodeLaws.NumberBytes` | script/script.h:334-350 | the little-endian value of number bytes with the top bit as sign |
| `OpcodeLaws.VerifyLaw` | script/interpreter.cpp:429-442 | VERIFY passes exactly the numbers other than zero |
| `OpcodeLaws.EqualForms` | script/interpreter.cpp:663-688 | EQUAL compares byte for byte, and EQUALVERIFY is EQUAL VERIFY under its own error |
| `OpcodeLaws.NumEqualForms` | script/interpreter.cpp:768-774 | NUMEQUALVERIFY is NUMEQUAL VERIFY under its own error |
| `OpcodeLaws.SignatureForms` | script/interpreter.cpp:843-849 | CHECKSIGVERIFY and CHECKMULTISIGVERIFY are their plain forms and VERIFY, errors and check counts included |
| `OpcodeLaws.LockTimeLaw` | script/interpreter.cpp:344-384 | CHECKLOCKTIMEVERIFY keeps the stack and passes exactly a satisfied non-negative number of at most five bytes |
| `OpcodeLaws.SpareOpcodes` | script/interpreter.cpp:386-392 | NOP1 to NOP10, and CHECKLOCKTIMEVERIFY where it is not in force, do nothing unless discouraged |
| `OpcodeLaws.Hashing` | script/interpreter.cpp:798-822 | which opcode byte stands for which hash |
| `OpcodeLaws.NotIfIsIfElse` | script/interpreter.cpp:394-412 | NOTIF is IF ELSE |
| `OpcodeLaws.SkippedConditional` | script/interpreter.cpp:394-427 | a conditional inside a skipped branch takes neither of its own and leaves no trace |
| `OpcodeLaws.EncodingIff` | script/interpreter.cpp:189-211 | what passes the encoding rules under each flag, in terms of DER, hash types and key forms |
| `OpcodeLaws.HashTypes` | script/interpreter.cpp:178-187 | ALL, NONE or SINGLE, with or without ANYONECANPAY |
| `OpcodeLaws.KeyForms` | script/interpreter.cpp:67-88 | a tag of 2 or 3 with 32 bytes, or 4 with 64 |
| `OpcodeLaws.MinimalPushes` | script/interpreter.cpp:213-234 | each byte string has one minimal push opcode, and the one-byte numbers have none |
| `OpcodeLaws.NoneFits` | script/interpreter.cpp:881-910 | when nothing fits, the scan stops after exactly as many checks as leave too few keys |
| `OpcodeLaws.AllFit` | script/interpreter.cpp:881-910 | when each signature fits the key at its place, each is checked once |
| `OpcodeLaws.BadEncodingStops` | script/interpreter.cpp:888-892 | a badly encoded pair ends the scan when it is reached, after the checks before it |
| `OpcodeLaws.KeyCountErrors` | script/interpreter.cpp:861-871 | which counts of keys are refused, and why |
| `OpcodeLaws.KeysAreCounted` | script/interpreter.cpp:861-868 | every listed key counts as an operation |
| `Interpreter.CastToBool` | script/interpreter.cpp:39-52 | false exactly on the byte strings of number zero, of either sign and any length |
| `Interpreter.ScanLoop` | script/interpreter.cpp:881-910 | the loop with its stack indices computes the scan, its result and its number of checks |
| `Interpreter.EvalScript` | script/interpreter.cpp:236-958 | the loop computes the run of the machine, result, error and number of checks |
| `Interpreter.LowSErrorIsUnknown` | script/interpreter.cpp:189-204 | the encoding test, and with it CHECKSIG, ends in the unknown error exactly for a well-formed signature refused for its S value |
| `Interpreter.ShortSigRefused` | script/interpreter.cpp:189-204 | the shortest signature, when its S value is refused, ends in the unknown error |
| `Interpreter.SkippedChangesNothing` | script/interpreter.cpp:300-306 | an instruction in a branch not taken changes neither stack and checks nothing |
| `Interpreter.PayToScriptHashEval` | script/interpreter.cpp:266-958 | what the 23-byte template computes on every stack, the empty and the full one included |
| `VerifyScript.PayToScriptHashMeaning` | script/interpreter.cpp:1320-1337 | the template is satisfied exactly by a script with that hash on top of a stack that is neither empty nor full |
| `VerifyScript.RedeemScriptCounted` | script/script.cpp:190-212 | the script a push-only input leaves on top costs no more signature operations than the data the static count looks at |
| `VerifyScript.VerifyScript` | script/interpreter.cpp:1292-1361 | accepts exactly the valid pairs, says when it returns each error of the pair and otherwise the error of the first script that failed, never fails the non-empty-stack assertion, and checks no more signatures than the static counts of input and output allow |
| `VerifyScript.CleanStackIff` | script/interpreter.cpp:1348-1357 | accepted with the clean-stack rule exactly when accepted without it and the last script run leaves one element |
| `VerifyScript.SigPushOnlyIff` | script/interpreter.cpp:1302-1304 | accepted with the push-only rule exactly when accepted without it and the input is push-only |
| `VerifyScript.ScriptHashRuleIff` | script/interpreter.cpp:1320-1346 | accepted with the pay-to-script-hash rule exactly when accepted without it and, for the template, the input is push-only and its last element is a script the rest satisfies |
| `Multisig.ScanIffMatchable` | script/interpreter.cpp:881-910 | the greedy scan with early exit succeeds exactly when a strictly order-preserving matching of signatures to keys exists |
| `Sign.AssignOne` | script/sign.cpp:231-242 | adds an entry for the first key in order that has none and that the signature fits, and changes nothing else |
| `Sign.AnyOrderAssigns` | script/sign.cpp:229-243 | in whatever order signatures are visited, every entry checks, and every signature is in use or fits only keys that have one |
| `Sign.Assign` | script/sign.cpp:224-243 | the result of visiting each supplied signature once, with both properties |
| `Sign.Merge` | script/sign.cpp:244-259 | an empty element, then the found signatures in key order, cut or padded to the required number |
| `Sign.CombineMultisig` | script/sign.cpp:207-260 | the merged stack comes from visiting each supplied signature once in some order; without a placeholder it matches the keys in order; and when no signature fits two keys it has no placeholder exactly when enough key positions have a fitting signature |
| `Sign.CombinationFills` | script/sign.cpp:207-260 | whatever the order of visits, a result without placeholder matches the keys in order and needs enough fitting key positions, and these suffice when no signature fits two keys |
| `Sign.SharedFitWastes` | script/sign.cpp:229-243 | of two signatures the one that fits both keys, visited first, takes the key the other needs and a slot stays empty; visited last it leaves none empty |
| `Sign.FilledIsMatchable` | script/sign.cpp:207-260 | slots filled without a placeholder match the keys in order, repeated keys included |
| `Sign.CombinedSatisfies` | script/sign.cpp:207-260 | such a merged stack makes CHECKMULTISIG push true over exactly what lay below |
| `Sign.PushAll` | script/sign.cpp:117-130 | the loop concatenates the pushes of the elements |
| `Sign.PushAllRoundTrip` | script/sign.cpp:117-130 | evaluating the built script gives the stack back exactly when sizes are within limits and minimal pushes do not meet a lone 0x81 |
| `Sign.MinusOneIsNotPushedMinimally` | script/interpreter.cpp:213-234 | the stack that fails under the minimal-push rule |
| `MultisigSpend.GetScriptForMultisig` | script/standard.cpp:309-318 | the loop builds the required number, the keys, their number and CHECKMULTISIG |
| `MultisigSpend.ScriptPushes` | script/standard.cpp:309-318 | the output script is the minimal pushes of its numbers and keys followed by CHECKMULTISIG |
| `MultisigSpend.OutputDecides` | script/interpreter.cpp:848-944 | run on an extra element and the slots, the output script leaves exactly whether the slots match the keys in order; it fails when more are required than there are keys, and when the extra element must be empty and is not |
| `MultisigSpend.InputPushes` | script/sign.cpp:117-130 | the built input is push-only and evaluates to exactly the elements it was built from |
| `MultisigSpend.CombinedSpends` | script/sign.cpp:207-260 | script verification accepts the combined input against the multisig output exactly when no slot stayed empty, and when no signature fits two keys exactly when enough key positions have a fitting signature |
| `MultisigSpend.CombinedRedeems` | script/sign.cpp:300-319 | the same through pay-to-script-hash with the multisig script pushed last |
| `MultisigSpend.MultisigSigOps` | script/script.cpp:166-188 | an m-of-n output counts n accurately and twenty by the legacy rule |
| `PubkeySpend.PubkeyEval` | script/interpreter.cpp:824-851 | a pushed key and CHECKSIG leave over any stack the check of the signature against that key and that script, made once, or fail with the encoding error |
| `PubkeySpend.PubkeyVerifyEval` | script/interpreter.cpp:824-851 | the CHECKSIGVERIFY form leaves nothing, or fails when the check does |
| `PubkeySpend.PubkeySpends` | script/interpreter.cpp:1292-1361 | a pay-to-pubkey output is spent exactly by a well-encoded signature that checks |
| `PubkeySpend.PubkeyHashEval` | script/standard.cpp:287-291 | DUP HASH160 h EQUALVERIFY CHECKSIG on any stack: the key must hash to h, and then its signature is checked once |
| `PubkeySpend.PubkeyHashSpends` | script/standard.cpp:287-291 | such an output is spent exactly by a key of that hash and a well-encoded signature that checks |
| `PubkeySpend.PubkeySigOps` | script/script.cpp:166-188 | a pay-to-pubkey output counts one by either rule |
| `Arith256.BaseUint.AddAssign` | arith_uint256.h:135-145 | the sum modulo the width, with the same object on both sides allowed |
| `Arith256.BaseUint.SubAssign` | arith_uint256.h:147-151 | the difference modulo the width |
| `Arith256.BaseUint.Negated` | arith_uint256.h:77-84 | the two's complement |
| `Arith256.BaseUint.Increment` | arith_uint256.h:173-180 | plus one modulo the width |
| `Arith256.BaseUint.Decrement` | arith_uint256.h:190-197 | minus one modulo the width |
| `Arith256.BaseUint.MulAssign32` | arith_uint256.cpp:56-65 | the product with a 32-bit number modulo the width |
| `Arith256.BaseUint.MulAssign` | arith_uint256.cpp:68-81 | the product modulo the width for two objects, and zero for one object with itself |
| `Arith256.AliasedSquareIff` | arith_uint256.cpp:70-75 | the zero that one object times itself yields is its square exactly when the low half of its bits is zero |
| `Arith256.SquareOneInPlace` | arith_uint256.cpp:70-75 | the square of one, asked of a single object, is zero |
| `Arith256.WideEnough` | arith_uint256.cpp:75 | no 64-bit intermediate of a multiplication overflows |
| `Arith256.BaseUint.CompareTo` | arith_uint256.cpp:110-119 | the order of the values |
| `Arith256.BaseUint.BitLength` | arith_uint256.cpp:172-184 | the position of the highest set bit plus one |
| `Arith256.BaseUint.ShlAssign` | arith_uint256.cpp:22-36 | multiplication by a power of two modulo the width, for every shift |
| `Arith256.BaseUint.ShrAssign` | arith_uint256.cpp:39-53 | the floor of division by a power of two, for every shift |
| `Arith256.BaseUint.DivAssign` | arith_uint256.cpp:84-107 | the exact floor quotient with the loop ending in the remainder, or the division-by-zero error with the object cleared |
| `Arith256.BaseUint.Assign64` | arith_uint256.h:88-95 | the value of a 64-bit number |
| `Arith256.BaseUint.GetLow64` | arith_uint256.h:245-249 | the value modulo 2^64 |
| `Limbs.ShiftedLeftValue` | arith_uint256.cpp:22-36 | the limbs a left shift leaves stand for the product modulo the width |
| `Limbs.ShiftedRightValue` | arith_uint256.cpp:39-53 | the limbs a right shift leaves stand for the floor of the quotient |
| `Compact.SetCompact` | arith_uint256.cpp:204-222 | the denoted number modulo 2^256, the sign, and the overflow flag exactly when the number needs more than 256 bits |
| `Compact.OverflowIff` | arith_uint256.cpp:217-220 | the three-way test on exponent and word is the test of the denoted number against 2^256 |
| `Compact.GetCompact` | arith_uint256.cpp:224-245 | the compact form of the value, with both assertions holding |
| `Compact.CompactFields` | arith_uint256.cpp:240-243 | mantissa, exponent and sign stay in their fields and are read back from them, with either sign |
| `Compact.CompactRoundTrip` | arith_uint256.cpp:204-245 | with either sign, reading back loses less than one part in 2^15 and never gains, gives the sign of a nonzero value and no overflow, and writing again changes nothing |
| `Sha256.Hasher.Write` | crypto/sha256.cpp:142-166 | the state stays a function of everything written, however it is split |
| `Sha256.Hasher.Finalize` | crypto/sha256.cpp:168-176 | the digest is the fold of the compression function over the padded message, which ends on a block boundary and is in bits what section 5.1.1 of FIPS 180-4 prescribes |
| `Sha256.Hasher.FinalizeNoPadding` | crypto/sha256.cpp:178-192 | the digest of the state, or the error exactly when one block was demanded and another length written |
| `Sha256.Hasher.Reset` | crypto/sha256.cpp:194-199 | the state of a fresh hasher, with nothing written |
| `Sha256.FoldResume` | crypto/sha256.cpp:142-166 | the state and the unprocessed tail determine the fold over any continuation |
| `Sha256.PadZerosLeast` | crypto/sha256.cpp:173 | the number of zero bytes is the least that leaves exactly eight bytes in the last block (section 5.1.1 of FIPS 180-4) |
| `Sha256.PaddedIsStandard` | crypto/sha256.cpp:168-176 | in bits, the padded message is the message, a one, the least number of zeros that leaves 64 bits of a block, and a field whose value is the length in bits modulo 2^64 (section 5.1.1 of FIPS 180-4) |
| `Sha256.DigestWord` | crypto/sha256.cpp:184-191 | bytes 4i to 4i+3 of the digest have word i as their big-endian value |
| `FixedPoint.ParsedIsWellFormed` | utilstrencodings.cpp:601-661 | a recognised string is in the grammar of section 6 of RFC 8259 and reads exactly as its parts |
| `FixedPoint.WellFormedIsParsed` | utilstrencodings.cpp:601-661 | every number of the grammar is recognised, with its own parts |
| `FixedPoint.PushAllTracks` | utilstrencodings.cpp:585-599 | the mantissa is the digits without trailing zeros, and giving up means it has more than eighteen digits |
| `FixedPoint.EvaluateIff` | utilstrencodings.cpp:663-690 | a number is accepted with an amount exactly when the amount is its value times 10^decimals, without rounding and below 10^18 |
| `FixedPoint.ParseIff` | utilstrencodings.cpp:601-691 | a string is accepted with an amount exactly when it is such a number with that amount |
| `FixedPoint.AmountBound` | utilstrencodings.cpp:684-685 | an accepted amount is below 10^18 in magnitude |
| `FixedPoint.RefusedZero` | utilstrencodings.cpp:672-677 | "0e-9" with eight decimals is refused |
| `FixedPointParser.ScaleUp` | utilstrencodings.cpp:590-594 | multiplication by ten step by step, stopping before any step that could overflow 64 bits |
| `FixedPointParser.ProcessMantissaDigit` | utilstrencodings.cpp:585-599 | one digit with the trailing zeros held back |
| `FixedPointParser.ParseFixedPoint` | utilstrencodings.cpp:601-691 | the scan computes the parse and its amount, with every 64-bit step in range |
| `Utf8.UnicodeToUTF8` | src/cblib/note.cpp:73-120 | the loop concatenates the encodings |
| `Utf8.UTF8toUnicode` | src/cblib/note.cpp:16-71 | the loop decodes character by character, with no result where it would not advance or would read outside |
| `Utf8.WriteThenRead` | src/cblib/note.cpp:16-120 | writing and reading back is the identity exactly on strings whose characters are at most 0x1FFFFF or one of six others |
| `Utf8.IsValidUtf8` | src/cblib/note.cpp:123-180 | the nested loops decide validity of the bytes before the first zero |
| `Utf8.ValidatorIff` | src/cblib/note.cpp:123-180 | valid strings are exactly the encodings of nonzero Unicode scalar values (section 3 of RFC 3629) |
| `Utf8.ReadThenWrite` | src/cblib/note.cpp:16-180 | on the bytes before the first zero of a valid string, reading ends and writing gives them back |
| `Utf8.ReadThenWriteIff` | src/cblib/note.cpp:16-120 | reading and writing back is the identity exactly on byte strings made of surviving characters in shortest form |
| `Utf8.ValidRoundTripsIff` | src/cblib/note.cpp:16-180 | a string called valid is read and written back exactly when what follows its first zero byte has that form |
| `Utf8.ValidRoundTrips` | src/cblib/note.cpp:16-180 | a valid string without zero bytes is read and written back unchanged |
| `Utf8.NothingBeyondZero` | src/cblib/note.cpp:123-180 | a string with an embedded zero byte that is called valid and on which reading never ends |

## Left out

- Hash functions, BLAKE2b, signature and lock-time checks are parameters; nothing is claimed about their strength.
- Transaction serialization and the signature hash (`interpreter.cpp:960-1289`) stand behind the signature check.
- `OptimisedSolve`, `CollideBranches` and truncated rows of the Equihash solver; the cancellation callback and logging.
- Equihash rows are modelled by their live bytes; stale bytes behind them in the fixed-width buffers are not.
- `std::sort` stands as an insertion sort with the contract of sorting; only that contract is used.
- The Merkle classes' stream serialization is reduced to what it does to `cursor_depth`; `operator==`, and the bit-vector form of path hashes, are not modelled.
- Integer widths of sizes and counters are unbounded where the source's limits keep them far from overflow (leaf counts, stack sizes, the SHA-256 byte counter).
- On a failed run the partly changed stack is not kept; only `Stacks` in `sign.cpp` would look at it.
- `Solver`, `ProduceSignature`, `SignStep` and the recursion of `CombineSignatures`: case splits around the parts that are modelled.
- `base_uint` conversions to hex and `double`, bitwise operators, and the byte order of `uint256`.
- The rounds of SHA-256, RIPEMD-160 and SHA-1.
- Note and witness bookkeeping driven by database queries, network, JSON and command-line code, JoinSplit proofs, key stores, display tables.
