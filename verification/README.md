# TinyDTLS with K2SN-MSS: a verified model

This project models the parts of a DTLS 1.2 library with a hash-based post-quantum
signature scheme that carry the hardest arguments, and proves what they promise.

- **The Merkle signature** (`MerkleTree`, `LTree`, `KeyTree`, `Scheduler`, `Traversal`, `Signer`). Key
  generation with a stack, and the traversal that moves the authentication path from one leaf
  to the next with H/2-1 leaf computations per signature. The hash is an arbitrary function of
  height, index and two nodes; the tree height is any even H >= 4. The heart is the schedule:
  the budget in `Scheduler` bounds, for every running treehash instance, all work that the
  selection rule can put before it, and shows that each instance meets its deadline.
  `KeyTree` shows what the root stands for: every component key once, at addresses that never
  repeat.
- **The message encoding and the one-time signature** (`CoverFree`, `Binomials`, `Unranking`,
  `Encoder`, `Packing`, `OneTime`, `KsnMss`). 320-bit arithmetic, Pascal's table, unranking of
  a 256-bit message to 131 of 262 indices, nine-bit packing, signing for every leaf of the
  tree, and the exact verdict of the verifier on every signature.
- **P-256** (`Limbs`, `Field`, `FastReduction`, `Barrett`, `Inversion`, `PointMultiplication`,
  `Ecdsa`). Limb arrays refine naturals; carries, borrows and lost carries are modelled.
- **AES-CCM and records** (`Octets`, `Ccm`, `CcmFormat`, `RecordLayer`). In-place counter mode
  with CBC-MAC over an arbitrary block function, what the blocks carry and why no two inputs are
  formatted alike, and records sealed by one role and opened by the other.
- **Handshake transport** (`Fragmentation`, `Reordering`, `Transport`, `Netq`,
  `Retransmission`). From single fragments to whole runs over a link that loses, repeats and
  reorders records.
- **SHA-256** (`Sha256`, `Sha256Words`, `Sha256Constants`). Streaming, with the 16-word schedule
  that overlays the buffer; what the functions do to bits and values, and where the constants
  come from.

Objects that the code updates in place are classes, buffers are arrays, the packet queue is
a linked list. `Numbers` holds arithmetic used everywhere.

## Where the code does less than it seems

Each of these is proved, with an input or with the exact condition.

- `fieldModP` drops the second carry of an addition. It reduces a 512-bit number correctly if
  and only if as many borrows are lost as carries (`FastReduction.ReductionIsExact`). There
  are products of two field elements that it reduces wrongly
  (`FastReduction.ProductReducedWrongly`).
- `fieldModO` cuts the quotient estimate to eight limbs. It is exact if and only if the number
  is below 0xFFFFFFFF00000000FFFFFFFFFFFFFFFFBCE6FAADA7179E84F3B9CAC2FC63255166E12D95 * 2^224,
  which includes all below n * 2^256 (`Barrett.ModOIsExact`). An eight-limb n stays unreduced.
- `fieldInv` does not end when the modulus divides its argument (`Inversion.EndsExactly`). For
  `ecc_ecdsa_validate` that is a signature with s = 0 or s = n.
- An ECDSA signature with x(kG) above the order validates never, one with x(kG) up to and
  including the order always: `ecc_ecdsa_validate` does not reduce the x coordinate.
- `sub` in `1cff.c` loses a borrow into a limb of 2^64-1 (`CoverFree.SubExact` says exactly
  when). `Encoder` therefore assumes of the fixed table that no entry it subtracts has such a
  limb 1, 2 or 3 (`NoFullLimbs`).
- The size check of `dtls_prepare_record` does not count the authentication value. With the
  size of the buffer as limit, which is what both callers pass, the encrypted record is up to
  eight bytes longer than the buffer for exactly eight payload lengths
  (`RecordLayer.OverrunExactly`).
- The collection of fragments looks neither at message numbers nor at the length announced by
  the first fragment. When fragments are lost it can mix two messages into one, take a message
  for complete whose end was never written, or write behind its buffer;
  `Fragmentation.OtherMessage`, `UnwrittenExactly` and `OverrunExactly` say exactly when.
  `Transport.ReceiveRecords` shows what holds when this does not happen.
- The length of a fragment is not compared with the length of the record that carries it. A
  header alone makes the code read behind the record (`Fragmentation.OverreadExactly`,
  `OverreadOccurs`).
- When the expected message is complete the code frees the buffer of the collection and then
  gives the message, which lies in it, to the handler. Every message of more than one fragment
  that completes as the expected one is handled from freed memory (`dangling` in
  `Reordering.HandleHandshake` and `SendAndHandle`).
- The two comparisons of `ksnmss_verify` add up differences. What the code accepts is a range
  and two equal totals (`KsnMss.Verify`), not equal images and equal roots.
- The update after the last signature runs with tau = H, outside `auth` and `keep`
  (`Traversal.TauInRange`).
- A handshake payload of a positive multiple of 1252 bytes does not advance the message
  number, so the receiver ignores the sender's next message (`Reordering.TwoMessages`).

## Model

| member | source | states |
|---|---|---|
| `Signer.TreeState.KeyGeneration` | k2sn/ksnmss.c:29-98 | key generation leaves the signer ready for leaf 0: `auth` is the sibling path of leaf 0, `retain` is node 3 of height H-2, every treehash instance of height h is finalized with node 3 of height h, and the public key is the recursively defined root |
| `Signer.TreeState.MergeUp` | k2sn/ksnmss.c:57-95 | merging one leaf pops exactly the complete subtrees it completes, so the stack again holds the subtrees of the binary form of the leaf count, and every merged node 1 or 3 is in its place |
| `Signer.TreeState.AddLeaf` | k2sn/ksnmss.c:57-94 | one pass of the key generation loop keeps the stack the canonical one for the leaf count and stays inside the H+1 cells |
| `Signer.TreeState.RoomOnStack` | k2sn/ksnmss.c:17-19 | H+1 cells are enough for every leaf count up to 2^H |
| `MerkleTree.CanonFalls` | k2sn/ksnmss.c:64-94 | heights on the stack fall strictly from bottom to top |
| `MerkleTree.CanonSize` | k2sn/ksnmss.c:64-94 | the stack for fewer than 2^k leaves has at most k nodes |
| `Traversal.CanonFull` | k2sn/ksnmss.c:64-98 | after 2^H leaves the stack is one node, the root |
| `Signer.TreeState.Store` | k2sn/ksnmss.c:65-77 | a merged node 1 goes to `auth`, a merged node 3 to its instance or to `retain`, and nothing else changes |
| `Traversal.StoredByMerge` | k2sn/ksnmss.c:64-77 | each merge step stores the nodes 1 and 3 that the step completes and keeps those stored before |
| `Traversal.StoredIsReady` | k2sn/ksnmss.c:29-98 | what is stored after all 2^H leaves is the state from which signature 0 is served |
| `Signer.TreeState.Update` | k2sn/ksnmss.c:365-494 | the update after signature id turns the state for leaf id into the state for leaf id+1: the path in `auth` is again the exact sibling path |
| `Signer.TreeState.MovePath` | k2sn/ksnmss.c:365-404 | `auth` becomes the sibling path of the next leaf, `keep` holds the right children that later paths need |
| `Signer.TreeState.SaveRightChild` | k2sn/ksnmss.c:378-381 | the node saved in `keep` is the one a later left child is hashed from |
| `Signer.TreeState.LeftChild` | k2sn/ksnmss.c:383-399 | `auth[tau]` becomes the sibling of the next leaf's ancestor, from the leaf itself or from the old sibling and the kept node |
| `Signer.TreeState.CopySiblings` | k2sn/ksnmss.c:400-404 | the heights below tau are taken from finished instances and from `retain`, and are the siblings the next path needs |
| `Traversal.NewLeftNode` | k2sn/ksnmss.c:387-399 | hashing the old path node with the kept node gives the sibling at height tau of the next path |
| `Traversal.NewSibling` | k2sn/ksnmss.c:400-404 | the node that step 4 reads below tau is the sibling of the next leaf's ancestor |
| `Traversal.InstanceReady` | k2sn/ksnmss.c:400-402 | every instance that step 4 reads is finalized and holds node (h, (id+1)/2^h + 1) before it is read, for every even H >= 4 and every signature |
| `Traversal.PathNext` | k2sn/ksnmss.c:358-413 | replacing the heights up to tau turns the path of leaf id into the path of leaf id+1 |
| `Traversal.KeepNext` | k2sn/ksnmss.c:378-381 | the kept right children stay right for the next leaf |
| `Traversal.TauInRange` | k2sn/ksnmss.c:367-376 | tau stays below H exactly when a next leaf exists, so the last leaf is the one that would leave the arrays |
| `Traversal.CountTau` | k2sn/ksnmss.c:367-376 | the loop counts the trailing ones of the leaf index |
| `Signer.TreeState.Restart` | k2sn/ksnmss.c:405-413 | the instances that were read are restarted on their next node as long as leaves for it exist |
| `Traversal.RestartAll` | k2sn/ksnmss.c:405-413 | restarting them keeps every instance correct and the schedule within its budget for the next signature |
| `Signer.TreeState.Select` | k2sn/ksnmss.c:421-429 | the selection picks the running instance with the least (stack bottom height, index), or none if none runs |
| `Signer.TreeState.ServeInstances` | k2sn/ksnmss.c:417-493 | H/2-1 selections serve the instances exactly as the budget demands |
| `Signer.TreeState.ServeOne` | k2sn/ksnmss.c:430-491 | a selected instance receives one leaf, its leaf count rises by one, and all others stay as they were |
| `Traversal.ServeLeaf` | k2sn/ksnmss.c:430-491 | one more leaf leaves the instance with the canonical stack for its leaf count, or finalized with its node |
| `Traversal.WhatInstanceShows` | k2sn/ksnmss.c:422-428 | `lowheight` and `finalized` show exactly which instances run and the height of the bottom of their stacks |
| `Scheduler.Deadline` | k2sn/ksnmss.c:405-493 | an instance of height h is complete when the round for its node is over, for every even H >= 4 |
| `Scheduler.ServeKeepsBudget` | k2sn/ksnmss.c:420-493 | serving the selected instance keeps the bound on the work done ahead of every instance |
| `Scheduler.RestartKeepsBudget` | k2sn/ksnmss.c:405-413 | restarting the read instances keeps that bound for the next signature |
| `Scheduler.CapacityExceedsWork` | k2sn/ksnmss.c:405-493 | in every window the H/2-1 leaves per signature exceed the work that can come before an instance, for h <= H-3 |
| `MerkleTree.ClimbReachesRoot` | k2sn/ksnmss.c:566-584 | hashing a node up along its sibling path gives the root |
| `LTree.CreateLTree` | k2sn/ksnmss.c:209-291 | the in-place folding of 262 component keys over one buffer computes the recursively defined L-tree root |
| `KeyTree.LRootCovers` | k2sn/ksnmss.c:209-291 | the L-tree root is the value of a binary tree of hash calls whose frontier, from left to right, is exactly the 262 component keys |
| `KeyTree.LRootBinds` | k2sn/ksnmss.c:209-291 | for a hash without collisions two lists of component keys with the same L-tree root are the same |
| `KeyTree.RootCovers` | k2sn/ksnmss.c:29-98 | the public root is the value of a binary tree whose frontier is exactly the component keys of all instances in their order |
| `KeyTree.RootBinds` | k2sn/ksnmss.c:29-98 | for a hash without collisions the root determines every component key of every instance |
| `KeyTree.ClimbBinds` | k2sn/ksnmss.c:566-584 | for a hash without collisions the climb determines the node it starts from and the whole path |
| `KeyTree.AddressesDiffer` | k2sn/ksnmss.c:57-291 | over the L-trees of all instances and the inner nodes of the Merkle tree no (height, index) address occurs twice |
| `KsnMss.KsnSigner.SumSecrets` | k2sn/ksnmss.c:335-355 | the signer adds the 131 selected secret keys bit by bit |
| `KsnMss.KsnSigner.Sign` | k2sn/ksnmss.c:297-363 | a signature holds the message, the bitwise sum of the selected secret keys, all public components and the exact path of its leaf, and the tree moves on |
| `OneTime.SubsetBitRange` | k2sn/ksnmss.c:345-355 | a sum of n bits is between 0 and n, so no byte of the sum exceeds 131 |
| `OneTime.SubsetBitCounts` | k2sn/ksnmss.c:336-355 | coordinate k of the sum is the number of selected secret keys that have bit k set |
| `Octets.ByteOfBits` | k2sn/ksnmss.c:336-355 | the eight bits make up the byte, least significant first |
| `OneTime.ImageOfUnit` | k2sn/ksnmss.c:532-537 | the image of a unit vector is a column of the matrix, so that with additivity the map is determined |
| `KsnMss.PublicCoefficient` | k2sn/ksnmss.c:191-198 | every public component holds the image of its secret one, coefficient by coefficient |
| `OneTime.ImageOfSum` | k2sn/ksnmss.c:532-553 | the image of the summed secrets is the sum of the images of the secrets modulo 257 |
| `OneTime.CoefSumOfImages` | k2sn/ksnmss.c:539-553 | the unpacked public components of an honest signer add up to the images of the secrets |
| `Packing.UnpackY` | k2sn/swifft16/swifft-avx2-16.c:316-350 | 64 words are reduced modulo 257 and packed as nine-bit coefficients into 72 bytes |
| `OneTime.ReducedIsImage` | k2sn/swifft16/swifft-avx2-16.c:316-350 | a vector that holds the image of a secret modulo 257 is packed to the public component |
| `Packing.ConvertRing` | k2sn/ksnmss.c:604-640 | 72 bytes are unpacked into 64 coefficients in the array |
| `Packing.UnpackPack` | k2sn/ksnmss.c:604-640 | unpacking undoes packing for every ring element |
| `Packing.PackedBit` | k2sn/ksnmss.c:604-640 | the 576 bits of a packed element are the bits of its coefficients without gaps: bit j of coefficient i is bit 9i+j |
| `OneTime.CoefSumIsTotal` | k2sn/ksnmss.c:539-548 | the sum before reduction is the total of that coefficient over the selected components |
| `KsnMss.PublicSumIsTotal` | k2sn/ksnmss.c:539-553 | the verifier's sum is the total, modulo 257, of each coefficient over the selected components |
| `KsnMss.Verify` | k2sn/ksnmss.c:501-596 | on every signature: 3 if and only if an entry of the summed secret exceeds 131; 2 if and only if not, but the 64 coefficients of its image and of the public sum differ in total; 1 if and only if those totals agree, but the 72 bytes of the public root and of the recomputed one differ in total; 0 otherwise |
| `KsnMss.GapDecides` | k2sn/ksnmss.c:555-560 | the 32-bit accumulator of differences vanishes if and only if the integer totals agree |
| `KsnMss.OneByteChanged` | k2sn/ksnmss.c:586-591 | changing one byte of a node changes the total of its bytes by the difference |
| `OneTime.TotalOfUpdate` | k2sn/ksnmss.c:555-558 | changing one entry changes a total by the difference |
| `OneTime.TotalOfZeros` | k2sn/ksnmss.c:555-558 | zeros have total zero; with the law for one entry this determines the total |
| `KsnMss.AsNodesInjective` | k2sn/ksnmss.c:562-563 | as nodes of the L-tree the components keep their bytes and their places |
| `KsnMss.RecomputeRoot` | k2sn/ksnmss.c:562-584 | the verifier's loop climbs from the L-tree root along the path in the signature |
| `KsnMss.AddPublic` | k2sn/ksnmss.c:539-553 | the verifier's sum of unpacked components, reduced once at the end |
| `KsnMss.HonestIsAccepted` | k2sn/ksnmss.c:501-596 | for every leaf and every message an honest signature is in range, its image is the sum of the selected public components, and its path leads to the root |
| `KsnMss.SignatureVerifies` | k2sn/ksnmss.c:332-596 | a verifier that encodes the message again obtains the same subset and accepts |
| `KsnMss.SignAndVerifyAll` | k2sn/ksnmss.c:29-596 | key generation followed by one signature per leaf in order: each of the 2^H signatures is honest for its message, with exactly the sibling path of its leaf, and the verdict on every one is acceptance |
| `CoverFree.AddExact` | k2sn/1cff.c:133-151 | 320-bit addition is exact up to one wrap at 2^320 |
| `CoverFree.SubExact` | k2sn/1cff.c:153-183 | subtraction is exact if and only if no borrow meets a limb of 2^64-1 that cannot take it |
| `CoverFree.SubLosesBorrow` | k2sn/1cff.c:153-183 | two numbers whose difference comes out wrong |
| `CoverFree.IsGteq` | k2sn/1cff.c:110-117 | the comparison decides >= on the values |
| `Encoder.CffState.SetBinotable` | k2sn/1cff.c:202-215 | every filled table entry is the binomial coefficient, without overflow of 320 bits |
| `Binomials.Absorption` | k2sn/1cff.c:208-213 | (k+1) C(n,k+1) = (n-k) C(n,k) |
| `Binomials.CentralBound` | k2sn/1cff.c:80-99 | C(2n,n)^2 * 4n >= 16^n |
| `Binomials.EnoughSubsets` | k2sn/1cff.c:80-99 | C(262,131) > 2^256, so every 256-bit message has a subset |
| `Encoder.CffState.ConvertU82U256` | k2sn/1cff.c:40-78 | the 32 bytes become the 256-bit number they denote, least significant byte first |
| `Encoder.CffState.Cff` | k2sn/1cff.c:80-99 | the search stays inside the table, ends with 131 strictly increasing indices below 262 whose rank is the message, and uses the message up |
| `Encoder.CffState.Encode` | k2sn/1cff.c:40-99 | encoding a message selects the subset whose rank is the message |
| `Unranking.RankWindow` | k2sn/1cff.c:88-97 | fixing the first indices leaves exactly the ranks of one window |
| `Unranking.RankInjective` | k2sn/1cff.c:88-97 | two subsets with the same rank are the same, index by index |
| `Unranking.FirstDifference` | k2sn/1cff.c:88-97 | the first index in which two subsets differ decides their order: the rank is lexicographic |
| `Unranking.CoverFreeSubsets` | k2sn/1cff.c:80-99 | of two subsets with different ranks neither contains the other |
| `Encoder.EncodingIsUnique` | k2sn/1cff.c:80-99 | a message has only one encoding |
| `Encoder.DifferentMessages` | k2sn/1cff.c:40-99 | two different messages never select subsets one of which contains the other |
| `Unranking.BytesValueInjective` | k2sn/1cff.c:40-78 | different byte strings are different numbers |
| `Unranking.OneByteChanged` | k2sn/1cff.c:40-78 | byte j has the weight of 256 to the power j |
| `Limbs.Add` | ecc/ecc.c:43-55 | limbwise addition with carry, also in place and at an offset: result plus carry is the sum, other limbs are unchanged |
| `Limbs.Sub` | ecc/ecc.c:57-67 | limbwise subtraction through 64-bit wrap-around: result plus subtrahend is minuend plus borrow |
| `Limbs.RShiftBy` | ecc/ecc.c:69-76 | dropping limbs divides by a power of 2^32, cut to the size of the output |
| `Limbs.IsGreater` | ecc/ecc.c:124-134 | the sign of the comparison of the values |
| `Limbs.IsSame` | ecc/ecc.c:119-121 | equal limbs are equal values and conversely |
| `Limbs.IsZero` | ecc/ecc.c:314-320 | recognises zero |
| `Limbs.IsOne` | ecc/ecc.c:302-312 | recognises one |
| `Limbs.RShift` | ecc/ecc.c:322-331 | halves the value in place |
| `Field.FieldAdd` | ecc/ecc.c:137-145 | addition with the reducer, second carry lost |
| `Field.FieldSub` | ecc/ecc.c:147-155 | subtraction with the modulus, unpaid borrow lost |
| `Field.FieldMult` | ecc/ecc.c:159-176 | the schoolbook loops with additions at an offset compute the product, and no carry leaves the result |
| `Field.FieldAddAndDivide` | ecc/ecc.c:333-348 | half of x + m, reduced when it needs the top bit |
| `FastReduction.FieldModP` | ecc/ecc.c:180-252 | stores the value that the ten field operations and the last subtraction leave |
| `FastReduction.PrimeTables` | ecc/ecc.c:80-87 | the tables hold p = 2^256 - 2^224 + 2^192 + 2^96 - 1 and 2^256 - p |
| `FastReduction.TermsAreCongruent` | ecc/ecc.c:187-247 | T + 2 S1 + 2 S2 + S3 + S4 - D1 - D2 - D3 - D4 is the number modulo p (appendix D.2.3 of FIPS 186-4) |
| `FastReduction.RunningValue` | ecc/ecc.c:137-155 | every field operation changes the running value by its term and a multiple of p, apart from a lost carry or borrow of 2^256 |
| `FastReduction.ReductionIsExact` | ecc/ecc.c:180-252 | for every 512-bit number: the result is below p, and it is the number modulo p if and only if as many borrows are lost as carries |
| `FastReduction.NothingLost` | ecc/ecc.c:180-252 | nothing is lost when limbs 8, 10, 11 and 15 are below 2^32-1, since every term is then below p |
| `FastReduction.ProductReducedWrongly` | ecc/ecc.c:178-252 | two field elements below p whose product is reduced wrongly |
| `Barrett.Tables` | ecc/ecc.c:88-102 | the tables hold the order n, 2^256 - n and the reciprocal floor(2^512 / n) |
| `Barrett.EstimateBounds` | ecc/ecc.c:281-285 | the estimated quotient is at most two below the quotient (note 14.44 of the Handbook of Applied Cryptography) |
| `Barrett.EstimateFits` | ecc/ecc.c:281-289 | below n * 2^256 the estimate fits the eight limbs it is cut to |
| `Barrett.RestIsExact` | ecc/ecc.c:281-299 | below 2^512 the reduction gives the residue if and only if A is below a fixed bound just under 2^512 |
| `Barrett.EstimateDecides` | ecc/ecc.c:281-299 | the residue is right if and only if the estimate fits eight limbs |
| `Barrett.EstimateFitsBelow` | ecc/ecc.c:281-289 | the estimate fits eight limbs if and only if A is below that bound |
| `Barrett.LargestIsWrong` | ecc/ecc.c:281-299 | 2^512 - 1 is reduced wrongly |
| `Barrett.ModOIsExact` | ecc/ecc.c:271-299 | for every number of up to 16 limbs the result is the residue if and only if the number is below the bound and not n itself in eight limbs |
| `Barrett.ModOExact` | ecc/ecc.c:271-299 | below n * 2^256 the result is the residue, except that eight limbs holding n itself stay n |
| `Barrett.ModOShort` | ecc/ecc.c:271-299 | with eight limbs a number up to n is kept, and for a larger one the limb above counts |
| `Barrett.FieldModO` | ecc/ecc.c:271-300 | stores that value for 8 to 16 limbs, also in place, with at most two corrections when A < n * 2^256 |
| `Barrett.SubtractOrder` | ecc/ecc.c:298-299 | the correction loop ends with the residue |
| `Inversion.Bezout` | ecc/ecc.c:353-409 | the greatest common divisor is an integer combination |
| `Inversion.PrimeIsCoprime` | ecc/ecc.c:353-409 | a number that the prime does not divide is coprime to it |
| `Inversion.HalveWhileEven` | ecc/ecc.c:370-379 | halving until u is odd leaves its odd part, and keeps A x1 = u and gcd(u, v) = 1 |
| `Inversion.SubtractSmaller` | ecc/ecc.c:391-402 | the smaller is taken from the larger, which keeps A x1 = u, A x2 = v, gcd(u, v) = 1 and makes u + v smaller |
| `Inversion.InversionStep` | ecc/ecc.c:369-403 | one round takes (u, v) to the pair that `Round` gives, keeps the invariant and makes u + v smaller |
| `Inversion.HalvingEnds` | ecc/ecc.c:370-371 | halving while even ends on every number but zero |
| `Inversion.RoundDivides` | ecc/ecc.c:369-403 | an odd number that divides u and v divides both after a round |
| `Inversion.NeverEnds` | ecc/ecc.c:369-403 | an odd number above 1 that divides both keeps the exit test from ever being met |
| `Inversion.CoprimeEnds` | ecc/ecc.c:369-403 | the rounds on coprime numbers reach a 1 |
| `Inversion.EndsExactly` | ecc/ecc.c:353-409 | modulo an odd prime the loop ends if and only if the prime does not divide A |
| `Inversion.FieldInv` | ecc/ecc.c:353-409 | for an odd prime modulus m and A not divisible by m the loop ends after the rounds counted, with B < m and A B = 1 mod m, also when B overlays A |
| `PointMultiplication.MulMul` | ecc/ecc.c:491-513 | b times the a-fold point is the ab-fold point |
| `PointMultiplication.MulOne` | ecc/ecc.c:491-513 | one times a point is the point; with additivity this determines the multiples |
| `PointMultiplication.MulModOrder` | ecc/ecc.c:491-513 | only the scalar modulo the order matters |
| `PointMultiplication.BitOfNum` | ecc/ecc.c:503-507 | bit i of the scalar is bit i mod 32 of limb i / 32 |
| `PointMultiplication.NextPrefix` | ecc/ecc.c:503-512 | doubling, and adding when the next bit is set, reaches the next prefix of the scalar |
| `PointMultiplication.EcMult` | ecc/ecc.c:491-513 | the double-and-add loop computes the scalar multiple in any lawful group |
| `Ecdsa.HashTerm` | ecc/ecc.c:550-556 | tmp3 becomes e + r d modulo n, the carry of the addition included |
| `Ecdsa.SolveS` | ecc/ecc.c:558-563 | s becomes the solution of s k = e + r d modulo n |
| `Ecdsa.NonzeroR` | ecc/ecc.c:544-549 | r is zero when k is a multiple of n |
| `Ecdsa.SignatureRExact` | ecc/ecc.c:541-545 | r for every nonce: x(kG) if that is at most n, and otherwise the residue of x(kG) together with what the ninth limb adds |
| `Ecdsa.SignHash` | ecc/ecc.c:534-570 | for every k: 0 with r and s solving the signing equation, or -1 exactly when k is zero or r or e + r d is zero modulo n |
| `Ecdsa.Validate` | ecc/ecc.c:593-629 | for every e, r and s: 0 or -1; under a public key dG it is 0 if and only if r is x(kG) for the k with s k = e + r d modulo n, and under any public key if and only if the x coordinate of u1 G + u2 Q, for the inverse of s, equals r |
| `Ecdsa.ScalarsAddUp` | ecc/ecc.c:603-620 | u1 + d u2 = k modulo n for an honest signature |
| `Ecdsa.ValidationPoint` | ecc/ecc.c:603-620 | under the public key dG validation computes kG for every k that solves the signing equation, whatever r and s are |
| `Ecdsa.OneNonce` | ecc/ecc.c:593-629 | below n exactly one k solves the signing equation for given r and s |
| `Ecdsa.HonestSignature` | ecc/ecc.c:534-629 | an honest signature validates if and only if x(kG) <= n, for every d, e and k |
| `Ecdsa.SignThenValidate` | ecc/ecc.c:534-629 | signing followed by validating, on limbs and for every d, e and k: signing returns -1 exactly when k is zero or r or e + r d is zero modulo n, and otherwise validating returns 0 if and only if x(kG) <= n |
| `Ccm.FillBlock0` | dtls-ccm.c:38-58 | the first authentication block of section 2.2 of RFC 3610 |
| `Ccm.SetCounter` | dtls-ccm.c:30-36 | the counter field written from the back is the big-endian counter for L = 2 and 3, which `CcmFormat.CounterReadBack` reads back |
| `Ccm.AddAuthData` | dtls-ccm.c:73-128 | the three length encodings, the first block and the strict last loop give the CBC-MAC of the encoded, zero-padded data |
| `Ccm.SealBlocks` | dtls-ccm.c:176-206 | block by block in place: the MAC of the plain text, and the plain text masked |
| `Ccm.EncryptMessage` | dtls-ccm.c:153-216 | the buffer becomes the output of sections 2.2 to 2.4 of RFC 3610 for any block function, masked by blocks that count (`CcmFormat.MaskedByCounter`), and no other byte changes |
| `Ccm.OpenMessage` | dtls-ccm.c:239-283 | the buffer becomes the unmasked text, and the tag check succeeds if and only if the buffer was the encryption of that text |
| `Ccm.DecryptMessage` | dtls-ccm.c:218-289 | returns the length if and only if the buffer was the encryption of the text it leaves, -1 otherwise or when shorter than the tag |
| `Ccm.TagMatches` | dtls-ccm.c:274-283 | the received bytes are an encryption exactly when the unmasked tag is the authentication value |
| `Ccm.UnmaskSealed` | dtls-ccm.c:153-289 | unmasking an encryption gives the plain text back |
| `Ccm.EncryptDecrypt` | dtls-ccm.c:153-289 | encrypting and decrypting in place restores the message |
| `CcmFormat.CounterReadBack` | dtls-ccm.c:30-36 | flags, nonce and counter are read back from a counter block |
| `CcmFormat.CountersDiffer` | dtls-ccm.c:30-36 | the counter blocks of one message and its tag are pairwise different |
| `CcmFormat.MaskedByCounter` | dtls-ccm.c:134-216 | byte k of the encrypted message is masked by the enciphered block whose counter field reads k/16 + 1, the authentication value by the one that reads 0 |
| `CcmFormat.Block0ReadBack` | dtls-ccm.c:38-58 | presence of data, both parameters, nonce and message length are read back from the first block |
| `CcmFormat.LengthReadBack` | dtls-ccm.c:85-96 | the length of the authentication data is read back from the bytes it starts with |
| `CcmFormat.LengthsDiffer` | dtls-ccm.c:85-96 | encoded data of different lengths never start alike |
| `CcmFormat.AuthenticationIsCbc` | dtls-ccm.c:73-206 | the authentication value is the CBC-MAC of the list of formatted blocks |
| `CcmFormat.OneBlockChanged` | dtls-ccm.c:73-206 | under a cipher that merges no blocks, changing one block changes the CBC-MAC |
| `CcmFormat.FormattedInjective` | dtls-ccm.c:38-206 | the formatted blocks determine the parameters, the nonce, the data and the message |
| `CcmFormat.XorIsEither` | dtls-ccm.c:137-150 | the sum of two bytes has the bits set in exactly one of them |
| `Sha256.Context.LoadWord` | sha2/sha2.c:490-499 | word j is read in place and byte-reversed into the schedule that overlays the buffer |
| `Sha256Constants.RoundConstants` | sha2/sha2.c:254-271 | each of the 64 round constants is the first 32 bits of the fractional part of the cube root of its prime, and the primes are the first 64 |
| `Sha256Constants.InitialValue` | sha2/sha2.c:274-283 | the initial hash value holds the first 32 bits of the fractional parts of the square roots of the first eight primes |
| `Sha256Constants.TrialDecides` | sha2/sha2.c:254-271 | below 324 trial division by the primes up to 17 tells primes from other numbers |
| `Sha256Words.BigSigma0Bits` | sha2/sha2.c:231-231 | bit j is the sum of bits j + 2, j + 13 and j + 22 around the word |
| `Sha256Words.BigSigma1Bits` | sha2/sha2.c:232-232 | bit j is the sum of bits j + 6, j + 11 and j + 25 around the word |
| `Sha256Words.Sigma0Bits` | sha2/sha2.c:233-233 | bit j is the sum of bits j + 7 and j + 18 around the word and of bit j + 3 inside it |
| `Sha256Words.Sigma1Bits` | sha2/sha2.c:234-234 | bit j is the sum of bits j + 17 and j + 19 around the word and of bit j + 10 inside it |
| `Sha256.ChChooses` | sha2/sha2.c:227-227 | the bits of y where x is set, those of z elsewhere |
| `Sha256.MajVotes` | sha2/sha2.c:228-228 | the bits on which two of the three words agree |
| `Sha256.NextWord` | sha2/sha2.c:513-524 | the word computed in place from four slots of the buffer is the next word of the 64-word schedule |
| `Sha256Words.ScheduleValue` | sha2/sha2.c:513-524 | the value modulo 2^32 of every word of the schedule after the first sixteen |
| `Sha256Words.BigWordValue` | sha2/sha2.c:490-499 | four bytes of the message, most significant first, denote the value of their word |
| `Sha256.Context.MixWord` | sha2/sha2.c:513-524 | the buffer then holds the 16 last words of the schedule |
| `Sha256.NextRegisters` | sha2/sha2.c:498-511 | the sequential register moves are one round of section 6.2.2 of FIPS 180-4 |
| `Sha256Words.SumValue` | sha2/sha2.c:498-548 | addition of words is addition of their values modulo 2^32 |
| `Sha256Words.RoundValue` | sha2/sha2.c:498-511 | the values modulo 2^32 of the two registers that a round computes, and the places of the other six |
| `Sha256Words.PlusValue` | sha2/sha2.c:539-547 | the feed-forward adds the old state register by register modulo 2^32 |
| `Sha256.Context.Transform` | sha2/sha2.c:473-548 | one block is compressed with the 64-word schedule, also when the block is the buffer itself |
| `Sha256Words.CompressValue` | sha2/sha2.c:473-548 | whatever words and registers satisfy the equations of section 6.2.2 of FIPS 180-4 on values modulo 2^32, for all 64 rounds: the compression adds the last registers to the first |
| `Sha256.Context.Update` | sha2/sha2.c:552-600 | feeding bytes extends the represented message by them, for every fill level and length |
| `Sha256.PaddedInPlace` | sha2/sha2.c:616-622 | the padding fits the last block when fewer than 56 bytes are left |
| `Sha256.PaddedWithBlock` | sha2/sha2.c:623-632 | otherwise the padding takes one block of its own |
| `Sha256.Context.Pad` | sha2/sha2.c:606-646 | the padding of section 5.1.1 of FIPS 180-4 is taken in, in one block or two |
| `Sha256Words.PaddedReadBack` | sha2/sha2.c:606-646 | a padded message is the message, the byte 0x80, as few zeros as whole blocks allow, and the length in bits |
| `Sha256Words.DigestReadBack` | sha2/sha2.c:648-662 | the digest is the eight registers in their order, each most significant byte first |
| `Sha256.Context.Final` | sha2/sha2.c:602-662 | the digest is the hash of everything fed, and the context is cleared |
| `Sha256Words.HashValue` | sha2/sha2.c:552-662 | compressing the blocks of the padded message one after the other, from the initial value on, gives the hash |
| `Sha256.HashPieces` | sha2/sha2.c:552-662 | for every way to cut a message into pieces the digest is the hash of the whole |
| `Fragmentation.HeaderFields` | dtls.c:750-780 | type, length, number, offset and fragment length are read back from a header |
| `Fragmentation.Sender.SendHandshake` | dtls.c:1731-1804 | the fragments sent, the transcript taken as if unfragmented, and the counter, which rises by one if and only if the length is not a positive multiple of 1252 |
| `Fragmentation.Reassembler.Reassemble` | dtls.c:4852-4919 | every record does one step of the collection: refuse, start, continue, complete, or leave the buffers |
| `Fragmentation.OverrunExactly` | dtls.c:4852-4897 | the code writes behind the buffer if and only if a fragment that continues the message reaches beyond the length announced first |
| `Fragmentation.UnwrittenExactly` | dtls.c:4852-4911 | a message is taken for complete too early if and only if the last fragment of a shorter message continues it |
| `Fragmentation.UnwrittenOccurs` | dtls.c:4886-4911 | fragment 1 of a message of 1300 bytes after fragment 0 of one of 3000 bytes completes the latter with 1700 bytes never written |
| `Fragmentation.OverreadExactly` | dtls.c:4852-4895 | the code reads behind the record if and only if a first or continuing fragment announces more bytes than the record has |
| `Fragmentation.OverreadOccurs` | dtls.c:4852-4895 | a header alone that announces a first fragment of 1000 bytes of 2000 is enough |
| `Fragmentation.OtherMessage` | dtls.c:4886-4915 | fragment i of another message in place of the lost one: the lengths alone decide whether the code waits, mixes the two messages, stops too early or writes behind its buffer |
| `Fragmentation.OverrunOccurs` | dtls.c:4886-4897 | fragment 1 of a message of 3000 bytes after fragment 0 of one of 1300 bytes is written behind the buffer |
| `Fragmentation.Reassembler.Continue` | dtls.c:4893-4915 | a continuing fragment that fits is copied behind the others, and the one that ends at the announced length completes the message with its header rewritten |
| `Fragmentation.RewrittenHeader` | dtls.c:4911-4915 | the rewritten header is that of the unfragmented message |
| `Fragmentation.FragmentTaken` | dtls.c:4852-4919 | a fragment in order makes the receiver wait, the last one yields the whole message |
| `Fragmentation.Transfer` | dtls.c:1731-1804 | for every payload up to 30000 bytes the receiver waits until the last fragment and then has exactly the bytes the sender has hashed (section 4.2.6 of RFC 6347) |
| `Reordering.Receiver.Find` | dtls.c:5003-5018 | the search finds a message with the number or shows that none is stored |
| `Reordering.Receiver.Store` | dtls.c:4952-4988 | an early message is stored unless it is too long or its number is stored already |
| `Reordering.Receiver.Accept` | dtls.c:4989-5020 | the expected message and its stored successors are handled in order; the loop ends; nothing is lost or doubled |
| `Reordering.Receiver.Process` | dtls.c:4944-5022 | old messages are ignored, early ones stored, the expected one handled; the queue keeps distinct numbers above the counter |
| `Reordering.HandleHandshake` | dtls.c:4839-5022 | a record goes through collection and ordering, and the collection is given up when the expected message is complete; its handler reads the message from freed memory if and only if the message was put together from fragments |
| `Reordering.StepKeeps` | dtls.c:4944-5022 | taking a whole message keeps the run in order, loses none that is still to come and invents none |
| `Reordering.PrefixHandled` | dtls.c:4989-5020 | if all numbers below k have arrived, at least k messages have been handled |
| `Reordering.ReceiveAll` | dtls.c:4944-5022 | for every order of arrival with duplicates: messages are handled with consecutive numbers, none twice, none invented, and every arrived prefix completely (section 4.2.2 of RFC 6347) |
| `Reordering.SendAndHandle` | dtls.c:1731-5022 | a message sent in fragments is put together and given to the handler, unless its number has passed; with more than one fragment the handler reads freed memory |
| `Reordering.TwoMessages` | dtls.c:1731-5022 | two messages sent in fragments and put together: after a payload that ends on a fragment boundary the receiver ignores the sender's next message; otherwise both go to the handler, from freed memory exactly those of more than one fragment |
| `Transport.PieceTaken` | dtls.c:4852-4915 | whatever fragment arrives, as long as it is not copied behind another message, the collection stays a prefix of the message it belongs to, and only that message can come out complete |
| `Transport.CollectionStep` | dtls.c:4852-4994 | the same for one record of a run, also when the collection has been given up; pieces in order complete their message |
| `Transport.DeliveredPrefix` | dtls.c:4944-5022 | messages that were sent and are handled with consecutive numbers are a prefix of what was sent, byte for byte |
| `Transport.ReceiveRecords` | dtls.c:4839-5022 | for every sequence of fragments of the sent messages, with losses, repetitions and changes of order, in which none is copied behind another message: what goes to the handler is a prefix of the messages sent, each once and as the sender has hashed it, and a prefix whose fragments have arrived in order goes there completely |
| `Netq.Queue.Insert` | netq.c:54-75 | the node is linked in behind all nodes due no later than it |
| `Netq.InsertSorted` | netq.c:54-75 | insertion keeps the queue sorted, and nodes due at the same time stay in order of insertion |
| `Netq.Queue.Remove` | netq.c:90-118 | exactly the given node is unlinked, the others keep their order |
| `Netq.Queue.PopFirst` | netq.c:120-132 | the first node is taken off and unlinked |
| `Netq.Queue.DeleteAll` | netq.c:159-172 | the queue is empty and every node unlinked |
| `Retransmission.Transmitter.Retransmit` | dtls.c:5768-5816 | below seven retransmissions a node goes back with its counter raised and its delay doubled, otherwise it is freed |
| `Retransmission.Transmitter.Enqueue` | dtls.c:1896-1922 | a handshake packet enters the queue behind all nodes due no later, with a counter of zero |
| `Retransmission.Transmitter.StopRetransmission` | dtls.c:5819-5835 | the nodes of a session leave the queue, the others keep their order |
| `Retransmission.Transmitter.CheckRetransmit` | dtls.c:5837-5857 | the check terminates; with `all` every remaining node is due after now, without it only the first node is handled; nodes that are not due stay as they were; every node is in the queue still or freed, once; the tally of retransmissions is kept |
| `Retransmission.Transmitter.SendFirst` | dtls.c:5846-5848 | the first node is resent with its counter and tally raised, or given up at the limit |
| `Retransmission.Transmitter.AtMostSeven` | dtls.c:5773-5785 | no node is ever resent more than seven times |
| `Retransmission.DelayDoubles` | dtls.c:5784-5785 | the first delay is the timeout, and every retransmission doubles it within 32 bits |
| `Retransmission.TalliedStep` | dtls.c:5773-5814 | resending raises counter and tally alike, and a node that is given up has been resent seven times |
| `Retransmission.HistoryStep` | dtls.c:5768-5857 | each operation extends the history of a run: what was sent, what was given up or stopped, and what is left |
| `Retransmission.Run` | dtls.c:5768-5857 | over every run of sending, checking and stopping: one packet for every one sent, in that order and for its session; each is in the queue still or freed, once; a freed one was resent exactly seven times or its session was stopped, and none stays whose session was stopped after it was sent; a queued one has been resent as often as its counter says, at most seven times; after a check of all, those left are due later |
| `Octets.BigEndianDigit` | dtls-numeric.h:32-84 | byte i of a number in n bytes has the weight of 256 to the number of bytes behind it |
| `Octets.ReadBack` | dtls-numeric.h:86-134 | a number that fits is read back from the bytes it was written to |
| `RecordLayer.KeyBlockParts` | dtls-crypto.h:155-184 | the keys and implicit nonces of the two roles are disjoint parts that make up the key block |
| `RecordLayer.HeaderReadBack` | dtls.c:717-742 | type, version, epoch, record number and length are read back from a record header |
| `RecordLayer.NonceReadBack` | dtls.c:1692-1695 | the nonce of CCM is the implicit part followed by the explicit one |
| `RecordLayer.DataReadBack` | dtls.c:3978-3980 | whatever was received, the additional data holds epoch, number, type and version of its header and the payload length |
| `RecordLayer.ExplicitInjective` | dtls.c:726-731 | below 2^48 records epoch and number can be read back from the nonce |
| `RecordLayer.SecurityParameters.Install` | dtls.c:1049-1068 | a finished key exchange gives the parameters their key block and numbers records from zero |
| `RecordLayer.SecurityParameters.NoneBeforeFirst` | dtls.c:4679-4683 | the nonce of a record sent before the parameters existed is not issued again |
| `RecordLayer.SecurityParameters.IssuedOnce` | dtls.c:716-742 | no parameter block issues a nonce twice below 2^48 records |
| `RecordLayer.Peer.AfterHelloVerify` | dtls.c:4671-4683 | the server peer of a returned cookie numbers its records from one |
| `RecordLayer.Peer.ParametersOf` | dtls-peer.h:64-73 | an epoch is looked up in both slots |
| `RecordLayer.Peer.LookupUnambiguous` | dtls-peer.h:64-73 | no epoch is found in both slots |
| `RecordLayer.Peer.Next` | dtls-peer.h:80-91 | the other slot gets fresh parameters of the next epoch; two filled slots stay neighbours |
| `RecordLayer.Peer.Switch` | dtls-peer.h:105-111 | the slots change places and stay neighbours |
| `RecordLayer.Peer.FreeOther` | dtls-peer.h:93-103 | the parameters of the previous epoch are given up, those of the next are kept |
| `RecordLayer.Peer.PrepareRecord` | dtls.c:1579-1727 | the call fails exactly when the size check fails; otherwise its length is that of the record, and a record that fits the buffer is the sealed or plain record of the concatenated pieces |
| `RecordLayer.OverrunExactly` | dtls.c:1660-1726 | with the buffer size as limit an accepted record is longer than the buffer if and only if it is encrypted and the payload length is in (limit - 29, limit - 21] |
| `RecordLayer.OverrunOccurs` | dtls.c:1660-1726 | a payload accepted for a buffer of 30000 bytes whose record has 30008 |
| `RecordLayer.Peer.DecryptVerify` | dtls.c:3925-3998 | a record is refused without parameters for its epoch, when too short, and when it is not the encryption of the payload it leaves; an accepted encrypted one gives up the previous epoch, and nothing else changes the other slot |
| `RecordLayer.SealedIsAuthentic` | dtls.c:1662-1727 | a sealed record is authentic for the writer's keys, names its epoch and contains its payload |
| `RecordLayer.SealThenOpen` | dtls.c:1579-3998 | a record that one role prepares, encrypted or not, the other role opens to the same payload, from either slot, whenever it fits the buffer |

## Left out

- KsnMss.KsnSigner.Sign: the update after the last leaf. The code guards it with `id < usr`, so at id = usr - 1 tau is H and the update leaves `auth` and `keep`; `Sign` and `Signer.TreeState.Update` update only while a next leaf exists.
- Encoder.CffState.Cff: assumes `NoFullLimbs` of the table, because `sub` is not exact without it; `isgteq` tests the index bound before the limb.
- Inversion.FieldInv: requires that the prime does not divide the argument. The loop of the code does not end otherwise (`Inversion.EndsExactly`). That n and p are prime is a hypothesis.
- Ecdsa.Validate: requires that the order does not divide s, for which the inversion does not end, and that the public point belongs to the group, which the code does not check.
- PointMultiplication.EcMult: `ec_add` and `ec_double` are operations of an arbitrary lawful group with (0, 0) as neutral element; the curve formulas, and products inside them that `fieldModP` reduces wrongly, are not modelled.
- RecordLayer.Peer.PrepareRecord: what the encryption writes behind the buffer when the record does not fit is not modelled. In a buffer of fewer than 21 bytes, which no caller has, an encrypted record is refused; the code copies the explicit nonce before its first check, and makes no check at all on an empty list of pieces.
- Fragmentation.Reassembler.Reassemble: what follows after the code has left its buffers (`Overrun`, `Overread`, `Unwritten`) is not modelled.
- Retransmission.Transmitter.CheckRetransmit: clock readings are arbitrary; the 64-bit wrap of due times is not modelled.
- Reordering.HandleHandshake: a handler that reads freed memory is taken to find the message intact; `dangling` tells when it does so.
- Reordering.ReceiveAll: the handler accepts every message, also in `Transport.ReceiveRecords`; allocation of queue nodes does not fail.
- Retransmission.Transmitter.StopRetransmission: requires that every queued packet has a session; the code looks at the session of each without a test.
- Retransmission.Transmitter.Retransmit: the epoch of a packet is not modelled. For an epoch whose parameters have been given up the code sends the stored data as a plain record.
- RecordLayer.Peer.Switch: requires parameters in the other slot; the code would leave the current slot empty.
- Soundness of the K2SN-MSS verifier: its answer is stated exactly for every signature, but equal totals are not equal values, and no cryptographic claim is made.
- KeyTree.LRootBinds: that the hash of two nodes has no collisions is a hypothesis, also in `KeyTree.RootBinds` and `KeyTree.ClimbBinds`. The code joins the nodes with 16 bytes of each added to the other before it hashes; how it joins them is not modelled.
- SWIFFT is an arbitrary linear map modulo 257, the tree hash an arbitrary function, ChaCha20 and AES arbitrary deterministic functions.
- Reading and writing of key files, sockets, logging, clocks, random numbers, and failure of memory allocation.
- PSK and certificate handling, cookies, TLS extensions, the handshake state machine behind the message handler, and key derivation.
- TESLA authentication and time synchronisation, SHA-3, SHA-384 and SHA-512, HMAC.
- CCM with L other than 2 and 3, for which the counter macro is not meant; the bitwise or of the flag fields, which do not overlap, is a sum.
