# Verified models of ppnt and two of its libraries

Dafny models of the parts of ppnt (and of the BoringSSL and nghttp2 code it carries) whose
correctness is hardest to see from the code, with proofs of what they are for. `dafny verify
dfyconfig.toml` checks the whole project.

| files | what they model |
|---|---|
| `Bits`, `Subtree`, `MerkleSpec`, `MerkleEvaluate`, `MerkleTree` | Merkle subtree hashes, inclusion and consistency proofs of BoringSSL's `pki/merkle_tree`, for every tree size |
| `HuffmanSpec`, `HuffmanTable`, `HuffmanRoundTrip`, `HuffmanExample`, `HuffmanNodes` | nghttp2's generator of the 4-bit HPACK Huffman decoding table, for every code that meets the stated conditions |
| `Wakeup`, `Completions` | the io_uring driver: posting tasks from other threads, and settling operations with linked timeouts |
| `Refcount` | BoringSSL's saturating reference counter under any interleaving |
| `Strings`, `DotSegments`, `Url` | removal of dot segments, URL parsing and printing |
| `ClientHello` | the TLS ClientHello rewriter |
| `NameConstraints` | DNS name constraints and wildcard names |
| `Base64` | Base64 |

How things are represented:

- SHA-256 is taken to be free of collisions: a digest is the hash of a leaf, the hash of a node, or
  neither, and which one is visible. A proof is a sequence of whole 32-byte hashes and a flag for
  bytes left over.
- 64-bit words are naturals below 2^64. The two bit tricks of `Subtree` are written with bitwise
  operators defined bit by bit and proved equal to their arithmetic meaning.
- Python's trie nodes are a class with a footprint (`TrieNode`); its methods are proved against
  functions on values, and the theorems are about those functions. The decoder that reads the
  table is not part of nghttp2's script; `TableRun` says how the rows are followed, four bits at a
  time from row 0.
- The driver and the counter are step machines. One step is one atomic access or one action under
  the mutex. The kernel is a source of completions that may also complete the eventfd read for no
  reason. Any number of threads take part. Threads may increment a counter through a reference that
  another one owns; only the owner gives it up, when nobody is using it.
- What a resumed coroutine does is a parameter: the operations it submits. It does not write into
  operations of others that are under way. Every submission has an id of its own, also where the
  program uses the same object again.
- A run-time check that stops the program (`BSSL_CHECK`, Python's `assert`) is a precondition or a
  proved fact; an error return is `None`. Error texts are not modelled.

Results about what the code does not do:

- `UrlRoundTrip`: printing and parsing again is not the identity on all accepted URLs.
  `RelativePathLost`, `AtSignLost`, `BracketsLost` and `ColonLost` give one for each reason, and the
  theorem says exactly which ones survive.
- `RewriteIdempotent`: rewriting a ClientHello twice is not always rewriting it once; it is exactly
  when no extension id is both taken over and forced. `RewriteTwiceDiffers` gives an instance.
- `WildcardSafety`: permitting `*.d` does not always permit what it stands for;
  `SpelledOutIsNotSafe` gives an instance, and the theorem says exactly when it does.
- `OrderIndependent`: the two completions of an operation commute exactly when the kernel does not
  report both an expired timeout and another result; `LaterCompletionWins` gives an instance. A
  cancelled operation whose timeout has not expired keeps the result it had before (`ResultOfPair`).

## Model

| member | source | states |
|---|---|---|
| Subtrees.Pow2SmallerCorrect | third-party/boringssl/pki/merkle_tree.h:96-131 | the OR ladder computes, for every 64-bit n >= 2, the largest power of two below n |
| Subtrees.IsValidCorrect | third-party/boringssl/pki/merkle_tree.h:74-84 | the lowest-set-bit test accepts exactly the non-empty ranges whose start is a multiple of the least power of two not below their size |
| Subtrees.SplitCorrect | third-party/boringssl/pki/merkle_tree.h:52-71 | a valid subtree of two leaves or more splits into two valid, non-empty halves: the left one starts where it starts, they meet at the largest power of two below the size, and the right one ends where it ends |
| Bits.LadderStep | third-party/boringssl/pki/merkle_tree.h:100-129 | one rung of the ladder doubles the run of ones at the top of the word |
| MerkleSpec.LevelStep | third-party/boringssl/pki/merkle_tree.cc:249-262 | node j of a level is the hash over its two children, or its only child moved up |
| MerkleSpec.MthOfThree | third-party/boringssl/pki/merkle_tree_unittest.cc:32-67 | the tree hash of three entries, written out |
| MerkleSpec.GeneratorArguments | third-party/boringssl/pki/merkle_tree_unittest.cc:32-63 | the validity checks of the recursive proof generator hold at every recursive call |
| MerkleSpec.ProofOfNode | third-party/boringssl/pki/merkle_tree_unittest.cc:32-67 | for a subtree that is a node of the tree, the recursive generator lists exactly the siblings met on the way up, level by level |
| MerkleSpec.ProofOfRagged | third-party/boringssl/pki/merkle_tree_unittest.cc:53-66 | for any other subtree it lists the largest complete node on the right edge, then the siblings above it |
| MerkleEvaluate.EvaluateConsistencyProof | third-party/boringssl/pki/merkle_tree.cc:71-224 | the shifting loops terminate on every input and compute the level-by-level evaluation, None when the proof is rejected |
| MerkleEvaluate.FollowProof | third-party/boringssl/pki/merkle_tree.cc:167-223 | steps 7 and 8, the inner shift loop included, agree with walking up one level at a time |
| MerkleEvaluate.StartLevel | third-party/boringssl/pki/merkle_tree.cc:100-137 | the first shift loop stops at a level where the subtree is a node of the tree, or where its right edge is a complete even node |
| MerkleEvaluate.WalkSound | third-party/boringssl/pki/merkle_tree.cc:167-210 | a walk that ends at the true root started from a true node and read nothing but true siblings |
| MerkleEvaluate.WalkComplete | third-party/boringssl/pki/merkle_tree.cc:167-210 | the walk along the true siblings ends with the true subtree hash and the true root |
| MerkleEvaluate.ConsistencyTheorem | third-party/boringssl/pki/merkle_tree.cc:71-224 | soundness and completeness: evaluation yields the root of the first n entries if and only if the subtree is valid and within them, the claimed hash is its true hash, and the proof is hash for hash the generated one |
| MerkleEvaluate.EvaluateInclusionProof | third-party/boringssl/pki/merkle_tree.cc:226-236 | re-roots the index in the subtree and evaluates there; None when the subtree or the index is invalid |
| MerkleEvaluate.InclusionTheorem | third-party/boringssl/pki/merkle_tree.cc:226-236 | evaluation yields the true subtree hash if and only if the entry hash is that of the entry and the proof is the generated one |
| MerkleEvaluate.AcceptedProofsSameLength | third-party/boringssl/pki/merkle_tree.cc:167-215 | all accepted proofs for the same tree size and subtree have the same length, whatever hashes they hold |
| MerkleTree.TrailingOnes | third-party/boringssl/pki/merkle_tree.cc:39-46 | counts the ones at the low end: 2^count divides m + 1 and 2^(count+1) does not |
| MerkleTree.MerkleTreeInMemory.constructor | third-party/boringssl/pki/merkle_tree.cc:299-299 | the empty tree |
| MerkleTree.MerkleTreeInMemory.FromEntries | third-party/boringssl/pki/merkle_tree.cc:301-312 | a tree over the given entries with all its levels complete |
| MerkleTree.MerkleTreeInMemory.Size | third-party/boringssl/pki/merkle_tree.cc:314-314 | the number of entries |
| MerkleTree.MerkleTreeInMemory.GetNode | third-party/boringssl/pki/merkle_tree.cc:316-320 | every complete block within the tree is in range and is the tree hash of its entries |
| MerkleTree.MerkleTreeInMemory.Append | third-party/boringssl/pki/merkle_tree.cc:322-344 | adds the entry at the end, keeps every level complete, and changes the levels as a binary counter does: one new node per level as far as pairs are completed |
| MerkleTree.MerkleTreeInMemory.UpdateLevels | third-party/boringssl/pki/merkle_tree.cc:329-344 | from correct leaves and correct partial levels, makes level i hold exactly size / 2^i nodes, each the hash of its own block |
| MerkleTree.MerkleTreeInMemory.FillLevel | third-party/boringssl/pki/merkle_tree.cc:332-342 | completes one level from the one below and leaves the others alone |
| MerkleTree.MerkleTreeInMemory.SubtreeHash | third-party/boringssl/pki/merkle_tree.cc:238-265 | equals the recursive Merkle tree hash of section 2.1.1 of RFC 9162 on every valid subtree |
| MerkleTree.MerkleTreeInMemory.SubtreeInclusionProof | third-party/boringssl/pki/merkle_tree.cc:267-297 | equals the recursive consistency proof of {index, index + 1} in the subtree |
| MerkleTree.CompleteUnique | third-party/boringssl/pki/merkle_tree.h:221-222 | the levels are determined by the entries |
| MerkleTree.PartialAppend | third-party/boringssl/pki/merkle_tree.cc:322-327 | an append leaves every stored node correct |
| MerkleTree.CarryComplete | third-party/boringssl/pki/merkle_tree.cc:322-344 | carrying the new leaf up as long as it completes a pair gives the complete levels of the longer list of entries |
| MerkleTree.AppendAllComplete | third-party/boringssl/pki/merkle_tree.cc:322-344 | after any number of such appends to an empty tree every level is complete |
| MerkleTree.InclusionRoundTrip | third-party/boringssl/pki/merkle_tree.cc:226-297 | for every valid subtree and index in it: the hash computed for the subtree is its tree hash, the hash of the one-leaf subtree is the leaf hash of the entry, the proof is the generated one, and the verifier given that proof and that leaf hash arrives at that tree hash |
| MerkleTree.BuildBothWays | third-party/boringssl/pki/merkle_tree.cc:299-344 | the levels built from all entries are those that one carry after the other builds from an empty tree, and appending one by one gives them too |
| HuffmanSpec.AddTermAt | third-party/nghttp2/mkhufftbl.py:296-309 | adding a code word changes the symbol at that word and nowhere else |
| HuffmanSpec.BuildTermAt | third-party/nghttp2/mkhufftbl.py:296-312 | a word leads to a symbol in the trie if and only if the code pairs them |
| HuffmanSpec.NumberAt | third-party/nghttp2/mkhufftbl.py:314-324 | numbering keeps the code, leaves are not numbered, and a node is accepting if and only if its prefix is at most seven one bits |
| HuffmanSpec.NumberPreorder | third-party/nghttp2/mkhufftbl.py:314-321 | the k-th inner node in preorder gets number k, so numbers are distinct and below the number of inner nodes |
| HuffmanTable.WalkableFrom | third-party/nghttp2/mkhufftbl.py:337-347 | in a full trie without words shorter than four bits, four bits from any inner node never meet a second symbol or a missing child |
| HuffmanTable.NibbleAgrees | third-party/nghttp2/mkhufftbl.py:326-347 | the entry recorded for a path of up to four bits says what bit-by-bit decoding does over them: dead after EOS, else the node of the pending bits and the symbol emitted |
| HuffmanTable.RootCompiled | third-party/nghttp2/mkhufftbl.py:399-418 | building and numbering a good code gives a full, numbered, marked trie with 256 inner nodes |
| HuffmanTable.TableWellFormed | third-party/nghttp2/mkhufftbl.py:362-397 | every cell of every printed row leads to a row of the table, the failure row 256 included |
| HuffmanTable.TableRunAgrees | third-party/nghttp2/mkhufftbl.py:326-397 | over any nibbles, following the table emits the symbols and reaches the node that walking the trie bit by bit does, with EOS going to the absorbing failure row |
| HuffmanRoundTrip.DecodingTheorem | third-party/nghttp2/mkhufftbl.py:314-397 | the decoder accepts an input with output `syms` if and only if the input is the encoding of `syms` followed by at most seven one bits |
| HuffmanRoundTrip.RoundTrip | third-party/nghttp2/mkhufftbl.py:314-397 | encoding, padding with ones to a byte and decoding gives back every symbol string, accepted |
| HuffmanExample.BuildInverse | third-party/nghttp2/mkhufftbl.py:296-312 | building the code words of a full trie gives back the trie |
| HuffmanExample.SomeHpackCode | third-party/nghttp2/mkhufftbl.py:399-418 | some code meets every condition of the decoding theorem |
| HuffmanNodes.Insert | third-party/nghttp2/mkhufftbl.py:296-309 | updates the linked nodes in place to the trie with the word added; only new nodes are allocated |
| HuffmanNodes.SetNodeId | third-party/nghttp2/mkhufftbl.py:314-321 | numbers and marks the linked nodes in place as on values and advances the context's counter by the number of inner nodes |
| HuffmanNodes.MarkNode | third-party/nghttp2/mkhufftbl.py:317-319 | gives one node its number and mark and leaves its children alone |
| HuffmanNodes.TraverseFrom | third-party/nghttp2/mkhufftbl.py:326-347 | appends to the start node, in order, one transition for every path of the given length |
| HuffmanNodes.Go | third-party/nghttp2/mkhufftbl.py:337-344 | one child of the walk; the assertion that no symbol was seen before holds |
| HuffmanNodes.BuildTransitionTable | third-party/nghttp2/mkhufftbl.py:349-357 | every node of the subtree ends up with its sixteen transitions |
| HuffmanNodes.PrintCell | third-party/nghttp2/mkhufftbl.py:367-384 | row number, flags and symbol of one transition |
| HuffmanNodes.PrintTransitionTable | third-party/nghttp2/mkhufftbl.py:362-387 | the rows of all inner nodes in preorder, so that the row of a node is at its number |
| HuffmanNodes.Generate | third-party/nghttp2/mkhufftbl.py:389-418 | from a good code to the table whose meaning the theorems state |
| Wakeup.StepKeepsInv | ppnt-io/src/driver.cpp:107-122 | what every step of every thread keeps: mutex ownership, a set flag has a signal on its way, queued tasks have the flag, a poster before it or a ring about to swap, the eventfd read is armed while the ring waits, and the history is ran + taken + queued |
| Wakeup.NoLostWakeup | ppnt-io/src/driver.cpp:107-159 | in every interleaving a non-empty queue implies a poster between its push and its write, a pending signal or completion, or a ring yet to swap; the tasks handed to `post` are, in order, those run, those taken, those queued, and the one of the thread that holds the mutex |
| Wakeup.PostedTasks | ppnt-io/src/driver.cpp:113-159 | the history from the steps alone: what was pushed is what was posted, every task run took one step of the ring, and everything handed to `post` is accounted for, in order |
| Wakeup.OneSignalPerWake | ppnt-io/src/driver.cpp:113-122 | however many threads post, the eventfd is written at most once more than the ring has cleared the flag |
| Wakeup.MutualExclusion | ppnt-io/src/driver.cpp:113-155 | no two threads hold the mutex |
| Wakeup.RankStep | ppnt-io/src/driver.cpp:107-159 | every step of a thread inside `post`, of the ring and of the kernel answering a signal leaves strictly less to do; a new post or a completion without a signal adds a bounded amount |
| Wakeup.RunLength | ppnt-io/src/driver.cpp:107-159 | so the length of every run is bounded by the work at its start, its posts and its completions without a signal |
| Wakeup.StuckIsAtRest | ppnt-io/src/driver.cpp:107-159 | a run after which none of those steps is possible has no thread inside `post`, the eventfd read submitted, an empty queue, and has run every task ever handed to `post`, in order |
| Wakeup.EveryScheduleRunsAll | ppnt-io/src/driver.cpp:107-159 | from every reachable state, in every schedule without new posts and without completions for no reason, the steps end within the bound, and where they end every task handed to `post` has been run, in order |
| Wakeup.PosterFinishes | ppnt-io/src/driver.cpp:113-122 | a thread inside `post` gets out by its own steps alone, from every reachable state |
| Wakeup.RingDrains | ppnt-io/src/driver.cpp:149-159 | with no thread inside `post`, steps of the ring and of the kernel answering signals run what was taken and what was queued, in order, without a post and without a completion for no reason |
| Wakeup.EverythingCanRun | ppnt-io/src/driver.cpp:107-159 | from every reachable state some schedule of the threads already under way, without a new post and without a completion for no reason, comes to rest with every task handed to `post` run, in order |
| Completions.Ring.RunBatch | ppnt-io/src/driver.cpp:70-105 | the loop over a batch settles the operations one completion at a time, with whatever the resumed coroutines submit meanwhile, and asks for a rearm if and only if the eventfd completed |
| Completions.Ring.HandleOne | ppnt-io/src/driver.cpp:80-103 | one completion writes result, buffer and flags into its operation, counts it down, and resumes it at zero; `BufferOfCompletion`, `ResultAlone` and `ResultOfPair` say what that comes to |
| Completions.HandleAllLocal | ppnt-io/src/driver.cpp:83-103 | an operation is affected by its own completions only, whatever else arrives or is submitted |
| Completions.ResumedOnce | ppnt-io/src/driver.cpp:100-102 | over any sequence of completions and submissions an operation is resumed exactly once, at its last outstanding completion |
| Completions.OrderIndependent | ppnt-io/src/driver.cpp:84-98 | the two completions of a linked operation commute if and only if an expired timeout comes with a cancelled (or itself expired) operation |
| Completions.LaterCompletionWins | ppnt-io/src/driver.cpp:84-98 | an expired timeout beside a finished read: the result is that of whichever arrives last |
| Completions.ResultOfPair | ppnt-io/src/driver.cpp:84-98 | the result shown for a linked operation, in either order and with anything in between |
| Completions.BufferOfCompletion | ppnt-io/src/driver.cpp:90-97 | whatever else arrives and in whichever order, an operation ends up with the flags of its own completion and, if bit 0 is set and it was not cancelled, the buffer in their upper half; otherwise its buffer stays as it was |
| Completions.ResultAlone | ppnt-io/src/driver.cpp:90-97 | an operation without a timeout shows the result of its one completion, or what it had before if it was cancelled |
| Refcount.StepKeepsInv | third-party/boringssl/crypto/refcount.cc:23-49 | what every load, swap, retry and return keeps, with any number of threads incrementing through one reference |
| Refcount.CountsReferences | third-party/boringssl/crypto/refcount.cc:23-49 | there is one reference plus one for every increment minus one for every decrement that has returned, and below its maximum the counter is that number; abort is not reached; zero is reported once when the counter is at zero and not otherwise |
| Refcount.ReferenceChanges | third-party/boringssl/crypto/refcount.cc:23-49 | an increment that returns leaves its thread with a new reference beside all others, and a decrement takes away the one it was called on |
| Refcount.ZeroIsLast | third-party/boringssl/crypto/refcount.cc:42-46 | zero is reported by the decrement that takes the last reference away |
| Refcount.CallReturns | third-party/boringssl/crypto/refcount.cc:23-49 | a thread inside a call returns after at most two steps of its own when the others stand still |
| Refcount.SaturationIsPermanent | third-party/boringssl/crypto/refcount.cc:26-41 | a saturated counter never moves and zero is never reported |
| Refcount.LastReference | third-party/boringssl/crypto/refcount.cc:34-49 | when as many references have been dropped as there ever were, zero was reported exactly once, or the counter had saturated and it was never reported |
| Refcount.NothingAfterZero | third-party/boringssl/crypto/refcount.cc:34-49 | after zero is reported every reference ever taken has been dropped, no thread is inside a call and none can make one |
| Refcount.NeverWraps | third-party/boringssl/crypto/refcount.cc:23-49 | every change of the counter is by one, with a reference made or dropped, and never across the ends of its range |
| DotSegments.RemoveDotSegments | ppnt-io/src/net/url.cpp:47-115 | the loop terminates and computes the stack of path segments |
| DotSegments.ResolveKeeps | ppnt-io/src/net/url.cpp:47-115 | the result has no "." or ".." segment, is no longer than the input, and starts with '/' if the input does |
| DotSegments.DotSegmentsVanish | ppnt-io/src/net/url.cpp:47-115 | anywhere in a rooted path, "./" and a segment with the "../" after it make no difference |
| DotSegments.DotSegmentsAtEnd | ppnt-io/src/net/url.cpp:47-115 | at the end, "/." and "/x/.." leave the slash |
| DotSegments.DotSegmentsInFront | ppnt-io/src/net/url.cpp:47-115 | in front of a relative path, dot segments disappear |
| DotSegments.RootHasNoParent | ppnt-io/src/net/url.cpp:47-115 | "/.." is the root |
| DotSegments.ResolveClean | ppnt-io/src/net/url.cpp:47-115 | a path without dot segments is left alone |
| DotSegments.Idempotent | ppnt-io/src/net/url.cpp:47-115 | removing dot segments twice is removing them once |
| DotSegments.ResolveChars | ppnt-io/src/net/url.cpp:47-115 | no character is in the result that is not in the input |
| Urls.ShowIntReads | ppnt-io/src/net/url.cpp:28-32 | a printed port reads back as the same number |
| Urls.ParseGives | ppnt-io/src/net/url.cpp:118-160 | the form every accepted URL has: no delimiter in the authority, no '@' in the user part, a path without dot segments, a port that fits |
| Urls.ParseFolds | ppnt-io/src/net/url.cpp:28-125 | scheme and host hold no capitals; the scheme is the text before the first colon and the host a stretch of the input, the same but for the case of their letters |
| Urls.ParseParts | ppnt-io/src/net/url.cpp:118-160 | a scheme, an authority and a tail put together are parsed each on its own |
| Urls.ParseExample | ppnt-io/src/net/url.cpp:118-160 | the parts of "HTTP://Me@Host:80/a/../b?q#f" |
| Urls.AuthorityRoundTrip | ppnt-io/src/net/url.cpp:8-44 | a printed authority reads back if and only if the host has no brackets of its own that are stripped or expose a colon, and no '@' when there is no user part |
| Urls.TailRoundTrip | ppnt-io/src/net/url.cpp:144-158 | a printed path, query and fragment read back |
| Urls.UrlRoundTrip | ppnt-io/src/net/url.cpp:118-239 | for every accepted input, printing and parsing gives the same URL if and only if the URL is printable |
| Urls.OrdinaryUrlRoundTrip | ppnt-io/src/net/url.cpp:118-239 | it does for every URL with an authority whose host holds no '@' and no '[' |
| Urls.RelativePathLost | ppnt-io/src/net/url.cpp:224-239 | an accepted URL that printing changes |
| Urls.AtSignLost | ppnt-io/src/net/url.cpp:8-44 | an accepted URL whose host holds an '@' and has no user part: printing changes it |
| Urls.BracketsLost | ppnt-io/src/net/url.cpp:28-44 | one whose host has brackets of its own |
| Urls.ColonLost | ppnt-io/src/net/url.cpp:8-44 | one whose host starts with a bracket and exposes a colon |
| ClientHello.PrintReadsBack | ppnt-io/src/net/pptls.cpp:26-163 | a printed message reads back unchanged if and only if every field fits its size prefix |
| ClientHello.ParseExactly | ppnt-io/src/net/pptls.cpp:29-88 | what the reader accepts and as what: a first byte of 1, three bytes, the printed fields within their size prefixes, then anything |
| ClientHello.WireLayout | ppnt-io/src/net/pptls.cpp:89-163 | the place and the big-endian size of every field in the printed message |
| ClientHello.ExtensionLayout | ppnt-io/src/net/pptls.cpp:76-88 | id, size and data of an extension in the block |
| ClientHello.CipherList | ppnt-io/src/net/pptls.cpp:103-107 | the cipher suites of the spec, two bytes each, high byte first, in order |
| ClientHello.HeaderLength | ppnt-io/src/net/pptls.cpp:156-160 | the 24-bit length is that of the body |
| ClientHello.RewriteMeaning | ppnt-io/src/net/pptls.cpp:22-163 | the output parses with version, random and session id unchanged, the cipher suites of the spec read two bytes at a time, its compression methods, and the extensions in spec order followed by the unhandled ones |
| ClientHello.MergedExtension | ppnt-io/src/net/pptls.cpp:112-154 | what a reader finds under each extension id: the original data, the forced data, or nothing |
| ClientHello.MergeOrder | ppnt-io/src/net/pptls.cpp:112-154 | what each entry of the spec and each extension of the message contribute, wherever they stand |
| ClientHello.MergeIdempotent | ppnt-io/src/net/pptls.cpp:112-154 | merging extensions twice is merging them once, for every message, if and only if no id is both taken over and forced |
| ClientHello.RewriteTwice | ppnt-io/src/net/pptls.cpp:22-163 | the direction for one message |
| ClientHello.RewriteGrows | ppnt-io/src/net/pptls.cpp:112-154 | with an id both taken over and forced, the empty message gets longer with the second rewriting |
| ClientHello.RewriteIdempotent | ppnt-io/src/net/pptls.cpp:22-163 | rewriting twice gives the same bytes as rewriting once, for every message whose rewritten form fits its size prefixes, if and only if no id is both taken over and forced (or the spec fits no message at all) |
| ClientHello.RewriteTwiceDiffers | ppnt-io/src/net/pptls.cpp:112-154 | a spec and a message for which the second rewriting differs from the first |
| ClientHello.ReadExtensions | ppnt-io/src/net/pptls.cpp:76-88 | the loop reads the whole extension block or fails |
| ClientHello.ReadHello | ppnt-io/src/net/pptls.cpp:29-88 | reads the message field by field, None at the first that is missing |
| ClientHello.Writer.PatchU16 | ppnt-io/src/binary_util.ixx:86-94 | overwrites the placeholder with the size of what follows, cast to 16 bits |
| ClientHello.Writer.WriteConfigured | ppnt-io/src/net/pptls.cpp:113-143 | the configured extensions in the order of the spec, and the list of handled ids |
| ClientHello.Writer.WriteUnhandled | ppnt-io/src/net/pptls.cpp:145-153 | the other extensions in their own order |
| ClientHello.RewriteHello | ppnt-io/src/net/pptls.cpp:22-163 | the whole rewriter: the printed rewritten message, or None |
| NameConstraints.IsPermittedDnsName | third-party/boringssl/pki/name_constraints.cc:645-671 | true if and only if no exclusion matches and, when DNS names are constrained, some permission does |
| NameConstraints.MatchByLabels | third-party/boringssl/pki/name_constraints.cc:56-124 | for every name and constraint, the suffix test on characters holds exactly when the name is the constraint and zero or more labels on its left, but for the case of letters, and at least one label if the constraint starts with a dot |
| NameConstraints.EqualNoCaseMeaning | third-party/boringssl/pki/string_util.cc:37-48 | comparing without case means: the same characters, or the two cases of one letter |
| NameConstraints.CaseDoesNotMatter | third-party/boringssl/pki/name_constraints.cc:67-124 | names and constraints that differ in the case of letters only match alike |
| NameConstraints.CapitalsDoNotMatter | third-party/boringssl/pki/name_constraints.cc:645-671 | a name written in capitals is permitted if and only if the name is |
| NameConstraints.TrailingDotDoesNotMatter | third-party/boringssl/pki/name_constraints.cc:74-80 | the dot at the end of an absolute name or constraint makes no difference |
| NameConstraints.PermittedByLabels | third-party/boringssl/pki/name_constraints.cc:645-671 | a name that is not a wildcard is permitted if and only if it is in no excluded subtree and, when DNS names are constrained, in some permitted one, by labels |
| NameConstraints.CoversMeaning | third-party/boringssl/pki/name_constraints.cc:67-124 | a constraint matches *.d other than by spelling it out if and only if it is empty, d itself, or a domain above d |
| NameConstraints.FullMatchIsAll | third-party/boringssl/pki/name_constraints.cc:661-666 | full matching accepts a wildcard if and only if the constraint matches every expansion of it |
| NameConstraints.PartialMatchIsAny | third-party/boringssl/pki/name_constraints.cc:646-652 | partial matching accepts a wildcard if and only if the constraint matches some expansion of it |
| NameConstraints.ExclusionHitsWildcard | third-party/boringssl/pki/name_constraints.cc:67-123 | an exclusion that matches x.d matches *.d under partial matching |
| NameConstraints.PermissionCoversLabels | third-party/boringssl/pki/name_constraints.cc:67-124 | a permission of d or of a domain above it matches every x.d |
| NameConstraints.WildcardSafety | third-party/boringssl/pki/name_constraints.cc:645-671 | when *.d is permitted, every x.d is if and only if DNS names are unconstrained or some permission is empty, d itself, or a domain above d |
| NameConstraints.NoStarIsSafe | third-party/boringssl/pki/name_constraints.cc:645-671 | so it is always safe when no permission contains a '*' |
| NameConstraints.SpelledOutIsNotSafe | third-party/boringssl/pki/name_constraints.cc:107-109 | a constraint that spells the wildcard out permits it and not what it stands for |
| Base64.EncodeBytes | ppnt-common/src/util.cpp:15-53 | the loop over 3-byte groups writes the base-64 digits of each 24-bit group, with padding |
| Base64.DecodeString | ppnt-common/src/util.cpp:59-98 | the loop over 4-character groups reads the bytes back, up to the first character outside the alphabet |
| Base64.DecodeBin | ppnt-common/src/util.cpp:100-142 | gives the same bytes as `decode`, for every input, and never more than the three quarters of the input size reserved |
| Base64.Ungroup | ppnt-common/src/util.cpp:73-75 | the bytes kept of a short group do not depend on the 255 its empty places hold |
| Base64.SymbolInAlphabet | ppnt-common/src/util.cpp:10-12 | the symbol of v is the v-th character of the alphabet |
| Base64.EncodeMan | ppnt-common/src/util.cpp:15-53 | "Man" is "TWFu" and "Ma" is "TWE=" |
| Base64.RoundTrip | ppnt-common/src/util.cpp:15-98 | decoding an encoded byte string gives it back |
| Base64.DecodedBits | ppnt-common/src/util.cpp:59-98 | six bits a symbol, high bits first, three bytes for four symbols and no byte for bits that do not fill one |
| Base64.EncodedLength | ppnt-common/src/util.cpp:15-53 | four characters for every started group of three bytes |
| Base64.DecodeStops | ppnt-common/src/util.cpp:67-67 | whatever follows a character outside the alphabet makes no difference |

## Left out

- SHA-256 itself; `HashLeaf` and `HashNode` are the constructors `LeafHash` and `NodeHash`.
- `MerkleTree` as an abstract base class: its two algorithms are methods of the in-memory tree.
- The literal HPACK code of Appendix B of RFC 7541 and the printed C text; the theorems hold for every code with the stated conditions.
- io_uring calls, buffer rings, eventfd system calls and their failures.
- `RunTask` in `Wakeup`: a null or finished handle is skipped by the source; here it counts as run like any other.
- `Url::parse` and `Url::href` are modelled on values; filling the fields of a `Url` object one after the other is not captured.
- `Url::resolve` and `Url::origin`: the resolver takes the error of the authority parser for success and the other way round, so no conformance statement holds of it.
- Base64.DecodeBin: does not model inputs so large that three times their size does not fit an `int`.
- Base64.EncodeBytes: does not model inputs of 2^31 bytes or more, whose size does not fit the `int` the source keeps it in.
- The rest of name_constraints.cc: other name types and the parsing of the extension.
- Session pools, the HTTP client, the V8 bindings and the socket wrappers.
