# Capsule ledger: what its proofs prove

A capsule ledger is an append-only log of records ("capsules"). Each record is
addressed by the hash of its canonical JSON, the addresses are the leaves of a
Merkle Mountain Range, and everything that leaves the ledger (bundles,
checkpoints, permalinks) is checked by a verifier that trusts none of it. This
project models that verifier, the canonical form under it, and the walks over
parent links around it, and proves what an acceptance means.

Check the whole project with `dafny verify dfyconfig.toml`.

## Layout

| module | what it holds |
|---|---|
| `Geometry` | positions, heights, sibling paths, peaks and leaf positions of the flat array |
| `Ancestry` | positions seen from inside a subtree: their heights, and the way up |
| `Hashing` | digests, preimages, bagging, folding, hex; collisions over explicit sets |
| `Proofs` | what an inclusion and a consistency proof claim, and what a check of it hashes |
| `Mmr` | the verifier's own loops, each tied to the layout function it computes |
| `Soundness` | binding, transport, append-only soundness, transitivity |
| `HonestLog` | the range of a real list of leaves; completeness |
| `Commitment` | the root determines the log; an accepted consistency proof means prefix |
| `Checkpoints` | the checkpoint verification run and its safety |
| `Certificate` | the completeness certificate, producer against checker |
| `Json`, `Reader` | JSON values, the printer and key order (RFC 8785, sections 3.2.2.2 and 3.2.3), and an independent reader (RFC 8259) |
| `Canonical`, `Normalize` | canonical text reads back and is unambiguous; what the normaliser removes |
| `Losses` | what the normaliser is documented to remove, and when that is the same |
| `CapsuleId`, `Coverage` | the content address; name by name, what it covers and leaves out |
| `Sealing` | sealing a record and checking the id of a sealed one |
| `Bundle`, `Blame`, `Annotate` | the three walks over parent links |
| `Fragment` | the permalink codec (RFC 4648, section 5) |

## How to read the statements

The hash is a parameter `H`, any function from byte strings to 32-byte digests.
A hash into a finite range has collisions, so a bare "or a collision exists"
would say nothing. Every soundness statement therefore names the finite set of
byte strings that the runs in question hash, and claims either the conclusion
or two different members of that set with the same digest.

Numbers in the verifier are doubles. The type `Mmr.SafeInt` holds the integers
a double represents exactly. Every position, size, power of two, count and hashed
number that the loops of `Mmr` compute has this type, for all sizes below the cap
of 2^50 and all positions and leaf indices the verifiers reach; so the arithmetic
never rounds.

An error thrown inside a verifier counts as a rejection, as its `catch` makes
it. Elsewhere a throw is `None`, or a terminal state of its own.

## Where the code and its documentation part

* `capsule checkpoint verify` is documented as rollback detection
  (checkpoint_cmd.py, lines 9 and 360), but it anchors a checkpoint only in a log
  that is long enough, and does not mind a negative lag: a log cut off below its
  only checkpoint passes (`TruncationPasses`, `TruncationExample`), and so does a
  lone checkpoint of the empty log, whatever its root (`EmptyCheckpointPasses`).
  `CleanMeansGenuine` and `RollbackDetected` say exactly what a clean exit
  establishes. A directory in which nothing loads passes as well (`NothingLoaded`).
* The linkage table is a plain object, so looking a member name up in it also
  finds what every object inherits: members called `constructor`, `toString` and
  the like are left out of the content address (`ConstructorIgnored`).
* A member called `__proto__`, which a JSON parser creates like any other, is lost
  at every depth: assigning to that name on a fresh object sets its prototype
  (`ProtoIgnored`, `NestedProtoIgnored`). Statements about the normaliser as it is
  count such members as ignorable, whatever they hold. `Losses` defines the
  normaliser as documented, which drops null, empty arrays and empty objects only,
  and `KeepsExact` says when the two agree.
* Together: the code hashes the documented content if and only if every member
  outside chain linkage is empty, or has no inherited name and holds no
  `__proto__` member that is not empty (`AddressesDeclared`). For capsules that
  meet this, `PreimageMeansDocumented` is the documented promise.
* Lone surrogates in strings are encoded like U+FFFD. `LoneSurrogateCollides` is
  an input; `PreimageMeansSame`, `CleanTextBinds`, `PreimageExact` and
  `PreimageConfuses` say what still holds, and exactly when it fails.
* The text of a completeness pass names a record range and a checkpoint; the
  check looks at the two boundary leaves at the indices in the certificate, and
  at the checkpoint only through a bridge (`NotChecked`).
* The table of altered ids is a plain object as well; ids that are inherited
  names are noted as altered (`ConstructorAltered`). For all others, and so for
  every id of the right form, the lookup is exact (`TableExact`).
* A fragment is not the only text that decodes to its bytes
  (`FragmentCanonical`).

## Model

| member | source | states |
|---|---|---|
| `Geometry.Children` | `capsule_ledger/bundle_viewer/static/offline_shell.html:557-560` | the child positions that the path walk computes are the roots of two subtrees one level lower that split the parent's subtree, and no subtree reaches below position 0 |
| `Geometry.Nested` | `capsule_ledger/bundle_viewer/static/offline_shell.html:540-549` | whatever lies in a subtree brings its own whole subtree along; only the root has full height |
| `Geometry.HeightAtIn` | `capsule_ledger/bundle_viewer/static/offline_shell.html:492-504` | the height of a position does not depend on the perfect tree it is looked up in |
| `Ancestry.HeightInside` | `capsule_ledger/bundle_viewer/static/offline_shell.html:492-504` | the height of a position is its height inside any subtree that holds it, wherever in the array that subtree starts |
| `Proofs.HeightInMountain` | `capsule_ledger/bundle_viewer/static/offline_shell.html:492-525` | for every valid size the height of a position is its height inside the mountain that holds it |
| `Proofs.ValidSizeMeans` | `capsule_ledger/bundle_viewer/static/offline_shell.html:518-535` | the sizes the verifiers work with are exactly the node counts below 2^50 |
| `Geometry.AlignedStep` | `capsule_ledger/bundle_viewer/static/offline_shell.html:511-525` | heights repeat after a mountain, for as long as a tree of its height lasts, and the mountain ends in its root |
| `Geometry.PathClimbs` | `capsule_ledger/bundle_viewer/static/offline_shell.html:551-574` | a sibling path ends at its target, joins siblings of equal height under their common parent at every step, and is as long as the difference of the heights |
| `Geometry.PathExact` | `capsule_ledger/bundle_viewer/static/offline_shell.html:551-574` | the sibling path is the only climb from the target to the root |
| `Ancestry.ParentsBelow` | `capsule_ledger/bundle_viewer/static/offline_shell.html:551-574` | no parent position on a path exceeds the root |
| `Geometry.PathComposes` | `capsule_ledger/bundle_viewer/static/offline_shell.html:551-574` | climbing to an inner subtree root and from there to the outer root is the same walk as climbing directly |
| `Geometry.NodeCountIncreasing` | `capsule_ledger/bundle_viewer/static/offline_shell.html:506-509` | the node count is strictly increasing, so it determines the leaf count |
| `Geometry.PeaksDecide` | `capsule_ledger/bundle_viewer/static/offline_shell.html:511-525` | peaks exist exactly for node counts; they are as many as the leaf count has set bits, tile the array without gap or overlap, strictly decrease in height, and their leaves add up to the leaf count |
| `Geometry.PeaksUnique` | `capsule_ledger/bundle_viewer/static/offline_shell.html:511-525` | the peaks are the only way to tile the array with mountains of strictly decreasing height |
| `Geometry.PeaksOfNodeCount` | `capsule_ledger/bundle_viewer/static/offline_shell.html:527-531` | counting the leaves of a node count gives back the leaf count |
| `Geometry.LeafPositions` | `capsule_ledger/bundle_viewer/static/offline_shell.html:533-538` | a position has height 0 exactly when it is the position of some leaf index |
| `Geometry.LeafPosition` | `capsule_ledger/bundle_viewer/static/offline_shell.html:533-538` | every leaf index maps to a position of height 0 from which the index can be read back |
| `Geometry.ContainingIndexExact` | `capsule_ledger/bundle_viewer/static/offline_shell.html:540-549` | every position of the array lies in exactly one mountain, and that one is found |
| `Hashing.BigEndianRoundTrip` | `capsule_ledger/bundle_viewer/static/offline_shell.html:446-454` | decoding the big-endian digits of a number that fits gives the number back |
| `Hashing.BeU64Injective` | `capsule_ledger/bundle_viewer/static/offline_shell.html:443-454` | below 2^64 the eight bytes decode to the number and determine it |
| `Hashing.PreimagesInjective` | `capsule_ledger/bundle_viewer/static/offline_shell.html:456-481` | each of the three preimages (leaf, interior, bag) determines its parts |
| `Hashing.PreimageLayout` | `capsule_ledger/bundle_viewer/static/offline_shell.html:445-481` | what is hashed, byte for byte: a zero byte before a leaf digest; position plus one in eight bytes, the most significant first, then the left and the right child; the right peak before the left one with nothing in front |
| `Hashing.RootLayout` | `capsule_ledger/bundle_viewer/static/offline_shell.html:470-481` | the root of no peaks is 32 zero bytes, of one peak the peak; otherwise the hash of 64 bytes, the first 32 being the root of all peaks but the first and the last 32 the first peak |
| `Hashing.PreimagePosition` | `capsule_ledger/bundle_viewer/static/offline_shell.html:462-468` | an interior preimage determines the position it was hashed for |
| `Hashing.BagStepBinding` | `capsule_ledger/bundle_viewer/static/offline_shell.html:475-479` | one bagging step binds the two peaks it joins and leaves the others alone, or the two joined preimages collide |
| `Hashing.BagBinding` | `capsule_ledger/bundle_viewer/static/offline_shell.html:470-481` | two equally long peak lists with the same root are equal, or the byte strings hashed while bagging them contain a collision |
| `Hashing.FoldAppend` | `capsule_ledger/bundle_viewer/static/offline_shell.html:612-618` | folding over a concatenated path is folding over its parts, with the same hash inputs |
| `Hashing.FoldBinding` | `capsule_ledger/bundle_viewer/static/offline_shell.html:612-618` | the digest at the top of a path binds the digest at the bottom and every sibling, or the hashed inputs collide |
| `Hashing.HexRoundTrip` | `capsule_ledger/bundle_viewer/static/offline_shell.html:388-405` | decoding the hex text of a byte string gives the byte string back |
| `Hashing.HexForm` | `capsule_ledger/bundle_viewer/static/offline_shell.html:397-405` | two lower-case digits a byte, the high half first |
| `Hashing.IsH64Means` | `capsule_ledger/bundle_viewer/static/offline_shell.html:711` | an id is 64 characters, each a digit or a letter from a to f in either case; these are the hex texts of digests |
| `Hashing.HexMeans` | `capsule_ledger/bundle_viewer/static/offline_shell.html:388-397` | exactly the strings of an even number of hex digits decode; upper case does not matter |
| `Hashing.FromHexAgrees` | `capsule_ledger/cli/checkpoint_cmd.py:241` | the command line's reading of hex text, which skips white space, agrees with the verifiers' own on every text that the latter accepts |
| `Hashing.FromHexSkips` | `capsule_ledger/cli/checkpoint_cmd.py:242` | `bytes.fromhex` skips white space before a byte, but not between its two digits |
| `Hashing.ParseHexDigests` | `capsule_ledger/bundle_viewer/static/offline_shell.html:413-418` | a list of digests survives the trip through hex text |
| `Mmr.Popcount` | `capsule_ledger/bundle_viewer/static/offline_shell.html:483-490` | the loop counts the one bits |
| `Mmr.NodeCount` | `capsule_ledger/bundle_viewer/static/offline_shell.html:506-509` | twice the leaf count less its one bits; doubling and subtraction stay exact |
| `Mmr.HeightAt` | `capsule_ledger/bundle_viewer/static/offline_shell.html:492-504` | the two loops find the height of the position, which is its height inside every subtree and mountain that holds it; every intermediate stays in the range where doubles are exact |
| `Mmr.TallestFit` | `capsule_ledger/bundle_viewer/static/offline_shell.html:515-516` | the inner loop finds the tallest perfect tree that fits |
| `Mmr.Peaks` | `capsule_ledger/bundle_viewer/static/offline_shell.html:511-525` | the loop returns the peak list of the size, and fails exactly where the code throws (out of range, or two mountains of equal height); arithmetic stays exact |
| `Mmr.LeafCountFromSize` | `capsule_ledger/bundle_viewer/static/offline_shell.html:527-531` | leaf count of a valid size, failure for every other; the sum stays exact |
| `Mmr.LeafIndexToPos` | `capsule_ledger/bundle_viewer/static/offline_shell.html:533-538` | node count of the index, or failure at the size cap; the doubled index stays exact for every index the verifiers pass |
| `Mmr.FindContainingPeak` | `capsule_ledger/bundle_viewer/static/offline_shell.html:540-549` | index of the first mountain that contains the position, or -1 |
| `Mmr.LocatePath` | `capsule_ledger/bundle_viewer/static/offline_shell.html:551-574` | the top-down walk, reversed, is the bottom-up sibling path; positions stay exact |
| `Mmr.BeU64` | `capsule_ledger/bundle_viewer/static/offline_shell.html:443-454` | the byte loop writes the eight big-endian digits of a safe integer, and divides exactly |
| `Mmr.InteriorHash` | `capsule_ledger/bundle_viewer/static/offline_shell.html:462-468` | the hash of position plus one, left and right; position plus one is a safe integer for every position below the cap |
| `Mmr.RootFromPeaks` | `capsule_ledger/bundle_viewer/static/offline_shell.html:470-481` | the pop/push loop computes the right-to-left bagging, which `RootLayout` fixes byte for byte; with two peaks or more the root is the hash of the root of the remaining peaks followed by the first peak |
| `Mmr.FoldPath` | `capsule_ledger/bundle_viewer/static/offline_shell.html:612-618` | the accumulator loop of the verifiers computes the fold over the path, whose hashed positions are below the size cap |
| `Mmr.Route` | `capsule_ledger/bundle_viewer/static/offline_shell.html:597-603` | the mountain that holds a position, and the sibling path to its peak, with all its positions below the size cap |
| `Mmr.LeafRoute` | `capsule_ledger/bundle_viewer/static/offline_shell.html:586-603` | mountain, path and peak count of a leaf; fails exactly for invalid sizes and leaves out of range |
| `Mmr.VerifyInclusion` | `capsule_ledger/bundle_viewer/static/offline_shell.html:576-626` | accepts exactly the proofs with the right version, kind, size and index, whose fold, put between the other peaks, bags to the root; a thrown error is a rejection |
| `Mmr.CheckPeak` | `capsule_ledger/bundle_viewer/static/offline_shell.html:658-679` | one round of the loop: whether the old peak climbs to the new peak above it |
| `Mmr.CheckPeaks` | `capsule_ledger/bundle_viewer/static/offline_shell.html:658-681` | the loop accepts exactly when every old peak does |
| `Mmr.VerifyConsistency` | `capsule_ledger/bundle_viewer/static/offline_shell.html:628-685` | accepts exactly the proofs with the right version, kind and sizes, whose two peak lists bag to the two roots and whose old peaks each climb to the new peak above them |
| `Soundness.InclusionBinding` | `capsule_ledger/bundle_viewer/static/offline_shell.html:576-626` | for one root, size and index two accepted proofs agree on the body and on every sibling and peak they carry, or the two runs contain a collision |
| `Soundness.ConsistencyBinding` | `capsule_ledger/bundle_viewer/static/offline_shell.html:628-685` | for fixed roots and sizes two accepted consistency proofs agree on every old peak, new peak and sibling they carry, or the two runs contain a collision |
| `Soundness.LeafPathExtends` | `capsule_ledger/bundle_viewer/static/offline_shell.html:597-603` | the path of a leaf in the larger range is its old path followed by the path of its old peak |
| `Soundness.Transport` | `capsule_ledger/bundle_viewer/static/offline_shell.html:576-685` | an accepted inclusion and an accepted consistency proof combine into an accepted inclusion of the same body under the new root that hashes nothing new, or they contain a collision |
| `Soundness.AppendOnly` | `capsule_ledger/bundle_viewer/static/offline_shell.html:576-685` | append-only soundness: a leaf proved under both roots of an accepted consistency proof has one body digest, or the three runs contain a collision |
| `Soundness.ConsistencyComposes` | `capsule_ledger/bundle_viewer/static/offline_shell.html:628-685` | consistency is transitive: two accepted proofs in a row compose to an accepted proof from the first root to the third, or they contain a collision |
| `Soundness.AcceptedAppendOnly` | `capsule_ledger/bundle_viewer/static/offline_shell.html:576-685` | the same for the verifiers as called, on hex text and proof objects |
| `Soundness.AcceptedInclusionBinding` | `capsule_ledger/bundle_viewer/static/offline_shell.html:576-626` | inclusion binding for the verifier as called |
| `HonestLog.NodeStable` | `tests/test_mmr_core.py:140-151` | appending never changes a stored node |
| `HonestLog.PrefixRoot` | `tests/test_mmr_core.py:143-151` | the old root read from the grown range is the root the shorter log had |
| `HonestLog.FoldHonest` | `capsule_ledger/bundle_viewer/static/offline_shell.html:612-618` | folding stored siblings up a path gives the stored node at its top |
| `HonestLog.InclusionComplete` | `tests/test_mmr_core.py:222-234` | every leaf has an accepted proof at every size the log has had since |
| `HonestLog.OnlyRealLeaves` | `capsule_ledger/bundle_viewer/static/offline_shell.html:576-626` | against the root of a real log an accepted proof shows the real leaf, with exactly the siblings and peaks of the real range, or the two runs contain a collision |
| `HonestLog.ConsistencyComplete` | `tests/test_mmr_core.py:366-382` | between any two states of a log there is an accepted consistency proof |
| `HonestLog.WireRoundTrip` | `capsule_ledger/bundle_viewer/static/offline_shell.html:413-418` | proof objects decode to the digests they were built from |
| `HonestLog.HonestInclusionAccepted` | `capsule_ledger/bundle_viewer/static/offline_shell.html:576-626` | an honest inclusion proof is accepted exactly when the root is the real one |
| `HonestLog.HonestConsistencyAccepted` | `capsule_ledger/bundle_viewer/static/offline_shell.html:628-685` | an honest consistency proof is accepted exactly when both roots are the real ones |
| `Commitment.ConsistencyMeansPrefix` | `capsule_ledger/bundle_viewer/static/offline_shell.html:628-685` | an accepted consistency proof between the roots of two logs means that the old log is a prefix of the new one, or what was hashed to build and check contains a collision |
| `Hashing.BagFromLeft` | `capsule_ledger/bundle_viewer/static/offline_shell.html:470-481` | bagging seen from the left: the first peak is joined last |
| `Commitment.SamePeak` | `capsule_ledger/bundle_viewer/static/offline_shell.html:462-468` | because interior hashes commit to positions, equal nodes that start at one place are roots of the same mountain, or there is a collision |
| `Commitment.SameExtent` | `capsule_ledger/bundle_viewer/static/offline_shell.html:470-481` | two tilings from one place with the same bagged root end at one place, or there is a collision |
| `Commitment.RootCommits` | `capsule_ledger/bundle_viewer/static/offline_shell.html:470-481` | a root alone, without a size, determines the whole log: contents, order and length, up to a collision or, where one log is empty, a preimage of the all-zero digest |
| `Checkpoints.CheckReceipts` | `capsule_ledger/cli/checkpoint_cmd.py:252-264` | all receipts are checked and every single one has to hold |
| `Checkpoints.RootTextPlain` | `capsule_ledger/cli/checkpoint_cmd.py:241` | a checkpoint root in plain hex is read as what it says |
| `Checkpoints.CheckAnchor` | `capsule_ledger/cli/checkpoint_cmd.py:232-250` | the last witnessed leaf is proved under the checkpoint root where the log is long enough; an impossible size raises |
| `Checkpoints.CheckOne` | `capsule_ledger/cli/checkpoint_cmd.py:216-264` | all four checks run whatever the earlier ones said, and the verdict is their conjunction |
| `Checkpoints.ReportLag` | `capsule_ledger/cli/checkpoint_cmd.py:275-278` | entries appended since the checkpoint; raises for an impossible size |
| `Checkpoints.VerifyCheckpoints` | `capsule_ledger/cli/checkpoint_cmd.py:204-289` | how the command ends: no checkpoints, an uncaught error for an impossible size (`CrashExact`), clean exactly when every checkpoint that loads passes against its predecessor and the log and its signature and every receipt hold (`VouchedExact`), failed otherwise; and the lag it reports |
| `Checkpoints.VouchedExact` | `capsule_ledger/cli/checkpoint_cmd.py:218-264` | whatever the log: one signature or one receipt that does not hold, at any stored checkpoint that loads, keeps the command from ending clean, and when all of them hold they are no reason to fail |
| `Checkpoints.CrashExact` | `capsule_ledger/cli/checkpoint_cmd.py:234-276` | the uncaught error occurs exactly when a checkpoint that loads is filed under a size that the log reaches and that is no node count below the cap, or the last one that loads names such a size |
| `Checkpoints.NothingLoaded` | `capsule_ledger/cli/checkpoint_cmd.py:204-215` | a non-empty directory in which nothing loads ends clean |
| `Checkpoints.TruncationPasses` | `capsule_ledger/cli/checkpoint_cmd.py:232-236` | a single stored checkpoint larger than the log, with any root, ends clean, with a negative lag |
| `Checkpoints.TruncationExample` | `capsule_ledger/cli/checkpoint_cmd.py:232-236` | concrete input: an emptied log and a checkpoint of one leaf whose root is the empty text |
| `Checkpoints.EmptyCheckpointPasses` | `capsule_ledger/cli/checkpoint_cmd.py:232-236` | a single stored checkpoint of the empty log ends clean whatever its root |
| `Checkpoints.Carried` | `capsule_ledger/cli/checkpoint_cmd.py:209-266` | a leaf proved under one checkpoint of a clean run is carried to every later one, hashing nothing new, or there is a collision; by induction over the run |
| `Checkpoints.RunSafety` | `capsule_ledger/cli/checkpoint_cmd.py:209-266` | whole-run safety: in a clean run a leaf proved under any checkpoint has the same body digest under every later one, or the two proofs and the consistency checks in between contain a collision; nothing is assumed of the log |
| `Checkpoints.AnchoredGenuine` | `capsule_ledger/cli/checkpoint_cmd.py:232-250` | against an honest log of any length the anchoring check never raises, and passes exactly when the log is shorter than the checkpoint, or was empty then, or the checkpoint root is the root the log had at that size |
| `Checkpoints.GenuineConsistent` | `capsule_ledger/cli/checkpoint_cmd.py:224-230` | between two checkpoints that an honest log reaches the consistency check passes exactly when both roots are genuine |
| `Checkpoints.SoundMeansGenuine` | `capsule_ledger/cli/checkpoint_cmd.py:209-266` | the same for the checks of the loop alone, which never raise against an honest log |
| `Checkpoints.CleanMeansGenuine` | `capsule_ledger/cli/checkpoint_cmd.py:204-289` | against an honest log of any length the command ends clean if and only if there is a stored checkpoint, signatures and receipts hold, the last size is not beyond the cap, and every checkpoint is upheld: reached by the log with its own and the preceding root genuine (one of the empty log that comes first is not looked at), or larger and the first to load or consistent with the one before |
| `Checkpoints.RollbackDetected` | `capsule_ledger/cli/checkpoint_cmd.py:204-289` | for a log that proves nothing beyond its own size the command ends clean if and only if there is a stored checkpoint, signatures and receipts hold and either the log reaches every checkpoint that loads and all are genuine, or there is only one and its log was empty or longer than the log is now, within the cap |
| `Checkpoints.NothingRewritten` | `capsule_ledger/cli/checkpoint_cmd.py:224-250` | a checkpoint root taken of an earlier log that is still genuine means that the earlier log is a prefix of the current one, or there is a collision |
| `Checkpoints.LagCounts` | `capsule_ledger/cli/checkpoint_cmd.py:157-159` | the lag counts the entries after the checkpoint, is zero exactly when the checkpoint covers the whole log, and negative exactly when it is larger than the log |
| `Certificate.CheckCompleteness` | `capsule_ledger/bundle_viewer/static/offline_shell.html:1013-1045` | skips exactly without records or certificate; passes exactly when both boundaries are proved under the range root and the bridge, where there is one, extends it to the checkpoint |
| `Certificate.BuildCertificate` | `capsule_ledger/cli/bundle_cmd.py:122-163` | which proofs and roots go into the certificate, and when there is none |
| `Certificate.BuiltFields` | `capsule_ledger/cli/bundle_cmd.py:138-163` | over the index of a real log the certificate names the range, its size right after the last record, the size of the whole log, and the roots the log had at both, bridged or not; a bridge is the consistency proof between the two |
| `Certificate.NotChecked` | `capsule_ledger/bundle_viewer/static/offline_shell.html:1013-1045` | the verdict does not depend on the sequence numbers in its text, on the records between the two boundaries, nor, without a bridge, on the checkpoint |
| `Certificate.BoundaryIsReal` | `capsule_ledger/bundle_viewer/static/offline_shell.html:1013-1045` | a boundary proved under a range that is bridged to the root of a real log is that log's leaf at the certificate's index, or there is a collision |
| `Certificate.PassMeansRealBoundaries` | `capsule_ledger/bundle_viewer/static/offline_shell.html:1013-1045` | a bridged pass against a real log shows that the first and the last record are its leaves at the two indices, or there is a collision |
| `Certificate.RangeMeansRealBoundaries` | `capsule_ledger/bundle_viewer/static/offline_shell.html:1013-1045` | a pass, bridged or not, whose range root is that of a real log shows that the first and the last record are its leaves at the two indices, or there is a collision |
| `Certificate.BridgeBranch` | `capsule_ledger/cli/bundle_cmd.py:141-148` | the branch without a bridge is taken exactly when the range reaches the end of the ledger |
| `Certificate.ProducerCheckerAgree` | `capsule_ledger/cli/bundle_cmd.py:122-163` | for every non-empty selection in sequence order from a gap-free ledger the certificate that is built passes the viewer's check, in both branches |
| `Json.KeyOrder` | `capsule_ledger/bundle_viewer/static/offline_shell.html:800-801` | comparison by code units is a strict total order |
| `Json.KeyLessMeans` | `capsule_ledger/bundle_viewer/static/offline_shell.html:800-801` | key order is decided by the first code unit that differs, a prefix being smaller |
| `Json.SortEqual` | `capsule_ledger/bundle_viewer/static/offline_shell.html:800-801` | sorting two member lists with distinct keys gives one result exactly when they have the same members |
| `Json.PrintCodePoint` | `capsule_ledger/bundle_viewer/static/offline_shell.html:772-783` | one round of the printing loop writes the escapes of the code point at hand, a surrogate pair being copied whole |
| `Json.PrintString` | `capsule_ledger/bundle_viewer/static/offline_shell.html:770-786` | the loop over code points writes the same text as escaping unit by unit |
| `Reader.StringReads` | `capsule_ledger/bundle_viewer/static/offline_shell.html:770-786` | every printed string reads back, escapes included, with an independent JSON reader, and shows where it ends |
| `Json.EscapeForm` | `capsule_ledger/bundle_viewer/static/offline_shell.html:770-786` | which units are escaped and how: the five short escapes, a backslash before quote and backslash, four lower-case hex digits for the other units below 0x20, and nothing else |
| `Json.AtomForm` | `capsule_ledger/bundle_viewer/static/offline_shell.html:788-802` | the texts of null, true, false and the empty array and object; a number prints exactly when it is an integer of at most 2^53 - 1 in size |
| `Reader.IntegerReads` | `capsule_ledger/bundle_viewer/static/offline_shell.html:794-798` | every printed integer reads back once a separator has to follow |
| `Canonical.CanonMeansSame` | `capsule_ledger/bundle_viewer/static/offline_shell.html:788-804` | two values have one canonical order exactly when they are equal up to the order of object members |
| `Canonical.CanonExact` | `capsule_ledger/bundle_viewer/static/offline_shell.html:800-801` | the canonical form is the one value with every object in key order that equals the given one up to key order |
| `Canonical.PrintsCanon` | `capsule_ledger/bundle_viewer/static/offline_shell.html:788-804` | the printer succeeds exactly when every number is a safe integer, and prints the value in canonical order |
| `Canonical.RawReads` | `capsule_ledger/bundle_viewer/static/offline_shell.html:788-804` | round trip: a printed value followed by a separator reads back as that value and leaves what follows |
| `Canonical.TextReadsBack` | `capsule_ledger/bundle_viewer/static/offline_shell.html:788-804` | the canonical text is JSON that reads back as the value that was printed, up to key order, with every object in key order |
| `Canonical.RawPrefix` | `capsule_ledger/bundle_viewer/static/offline_shell.html:788-804` | a printed value followed by a separator determines the value and what follows |
| `Canonical.TextMeansSame` | `capsule_ledger/bundle_viewer/static/offline_shell.html:788-804` | canonical text is unambiguous: two values print alike if and only if they are equal up to key order |
| `Normalize.NormalizeValue` | `capsule_ledger/bundle_viewer/static/offline_shell.html:754-768` | the recursion that fills a fresh object per level computes the normal form |
| `Normalize.HollowVanishes` | `capsule_ledger/bundle_viewer/static/offline_shell.html:760-764` | the values for which an object drops a member are exactly null, the empty array, and objects in which every member holds such a value or is called `__proto__` |
| `Normalize.PaddingInvisible` | `capsule_ledger/bundle_viewer/static/offline_shell.html:754-768` | adding ignorable members, those with such a value and those called `__proto__` whatever they hold, inside any object at any depth does not change the normal form |
| `Normalize.NormalFormPadded` | `capsule_ledger/bundle_viewer/static/offline_shell.html:754-768` | a value is its normal form with ignorable members added, `__proto__` members included: nothing else is removed or changed |
| `Normalize.NormalizedIdempotent` | `capsule_ledger/bundle_viewer/static/offline_shell.html:754-768` | normalising twice is normalising once |
| `Normalize.NormalizeExact` | `capsule_ledger/bundle_viewer/static/offline_shell.html:754-768` | two values normalise alike if and only if both are one value with ignorable members added, `__proto__` members included whatever they hold |
| `Normalize.SameMembersSameCanon` | `capsule_ledger/bundle_viewer/static/offline_shell.html:754-804` | permuting the members of one object, whatever they hold, changes nothing that is printed |
| `Normalize.SameValueSameCanon` | `capsule_ledger/bundle_viewer/static/offline_shell.html:754-804` | permuting the members of any objects, at any depth, changes nothing that is printed |
| `Normalize.ContentExact` | `capsule_ledger/bundle_viewer/static/offline_shell.html:754-804` | two values have equal normal forms up to key order if and only if they are equal up to key order and ignorable members, `__proto__` members included, at every depth |
| `Losses.EmptyVanishes` | `capsule_ledger/bundle_viewer/static/offline_shell.html:760-763` | the documented normaliser drops exactly null, the empty array, and objects with nothing but such members |
| `Losses.KeepsExact` | `capsule_ledger/bundle_viewer/static/offline_shell.html:754-768` | the code normalises as documented if and only if every member of every object inside is empty, or is not called `__proto__` and keeps its own content |
| `Losses.ContentDocumented` | `capsule_ledger/bundle_viewer/static/offline_shell.html:754-804` | for such values, equality up to key order and ignorable members is equality of the documented normal forms up to key order |
| `CapsuleId.DecodeEncode` | `capsule_ledger/bundle_viewer/static/offline_shell.html:815-816` | decoding the UTF-8 bytes gives the text back with lone surrogates replaced |
| `CapsuleId.UnitBytes` | `capsule_ledger/bundle_viewer/static/offline_shell.html:816` | the bytes of a code unit are those of UTF-8 (RFC 3629): lead and continuation bytes in their ranges, shortest form, spelling that number |
| `CapsuleId.PairBytes` | `capsule_ledger/bundle_viewer/static/offline_shell.html:816` | the bytes of a surrogate pair are the four of UTF-8 that spell its code point |
| `CapsuleId.BytesMeanRepaired` | `capsule_ledger/bundle_viewer/static/offline_shell.html:815-816` | two texts have the same bytes exactly when they agree after that replacement |
| `CapsuleId.ComputeId` | `capsule_ledger/bundle_viewer/static/offline_shell.html:811-817` | the loop, normaliser, printer and hash compute the id of the record; failure exactly where the code throws. Which members are left out on the way is said name by name in `LinkageIgnored` and `CoveredExact` |
| `Coverage.LinkageNames` | `capsule_ledger/bundle_viewer/static/offline_shell.html:750` | the table of linkage fields answers to the literal names chain and capsule_id |
| `Coverage.LeftOutMeans` | `capsule_ledger/bundle_viewer/static/offline_shell.html:750` | the table, a plain object, answers to exactly fourteen names: those two and the twelve that every object inherits |
| `Coverage.LinkageIgnored` | `capsule_ledger/bundle_viewer/static/offline_shell.html:811-817` | adding a member called chain or capsule_id at any place of any capsule, removing it or changing its value changes neither the hashed bytes nor the id |
| `Coverage.CoveredExact` | `capsule_ledger/bundle_viewer/static/offline_shell.html:811-817` | one more member, at any place of any capsule, changes the canonical text if and only if its name is none of the fourteen, its value holds something, and the capsule had a text before |
| `Coverage.DeclaredMeans` | `capsule_ledger/bundle_viewer/static/offline_shell.html:750` | the content outside chain linkage: the members called neither chain nor capsule_id |
| `CapsuleId.PreimageExact` | `capsule_ledger/bundle_viewer/static/offline_shell.html:811-817` | for any two capsules the hashed bytes agree exactly when the canonical texts agree after lone surrogates are replaced |
| `CapsuleId.PreimageMeansSame` | `capsule_ledger/bundle_viewer/static/offline_shell.html:811-817` | where the hashed content has its surrogates in pairs, two capsules hash the same bytes if and only if their normalised addressed members are equal up to key order |
| `CapsuleId.PairedMembersContent` | `capsule_ledger/bundle_viewer/static/offline_shell.html:815-816` | surrogates in pairs in the strings and keys of the addressed members are enough for that |
| `CapsuleId.PreimageMeansContent` | `capsule_ledger/bundle_viewer/static/offline_shell.html:811-817` | the same for the members as written: equal up to key order and ignorable members, `__proto__` members included, at every depth |
| `CapsuleId.PreimageMeansDocumented` | `capsule_ledger/bundle_viewer/static/offline_shell.html:750-817` | two capsules that the code hashes as documented have the same bytes if and only if their documented content is equal up to key order |
| `CapsuleId.PreimageConfuses` | `capsule_ledger/bundle_viewer/static/offline_shell.html:811-817` | for any two capsules: the same bytes for different content if and only if the two texts differ but agree after lone surrogates are replaced |
| `CapsuleId.PreimageInvariant` | `capsule_ledger/bundle_viewer/static/offline_shell.html:754-817` | neither the hashed bytes nor the id change under permutation of object keys and adding or removing ignorable members, `__proto__` members included, at any depth |
| `CapsuleId.InvariantCases` | `capsule_ledger/bundle_viewer/static/offline_shell.html:754-817` | in particular under a permutation alone and under padding alone |
| `CapsuleId.CleanTextBinds` | `capsule_ledger/bundle_viewer/static/offline_shell.html:811-817` | a capsule without lone surrogate and replacement character is bound by its bytes, whatever the other capsule holds |
| `CapsuleId.IdBindsContent` | `capsule_ledger/bundle_viewer/static/offline_shell.html:811-817` | equal ids mean equal content, or the two preimages collide |
| `CapsuleId.LoneSurrogateCollides` | `capsule_ledger/bundle_viewer/static/offline_shell.html:815-816` | concrete input: two capsules of different content with the same hashed bytes |
| `CapsuleId.AddressesDeclared` | `capsule_ledger/bundle_viewer/static/offline_shell.html:750-817` | for every capsule the code hashes the documented content (all members outside chain linkage, less null, empty arrays and empty objects) if and only if every such member that holds anything has no inherited name, `__proto__` included, and holds no `__proto__` member that does; or the code throws, as then that content has no text either |
| `CapsuleId.ConstructorIgnored` | `capsule_ledger/bundle_viewer/static/offline_shell.html:814` | concrete input: capsules that differ in a member called "constructor" have the same content address |
| `CapsuleId.ProtoIgnored` | `capsule_ledger/bundle_viewer/static/offline_shell.html:811-817` | concrete input: a capsule whose only member is `__proto__`, with the value true, is hashed like the empty one, and not as documented |
| `CapsuleId.NestedProtoIgnored` | `capsule_ledger/bundle_viewer/static/offline_shell.html:757-764` | concrete input: a nested `__proto__` member is ignored whatever it holds, although the documented content differs |
| `Sealing.Fill` | `capsule_ledger/ledger/capsule.py:80-83` | the loop adds, in order, every body member that is not yet in the sealed record |
| `Sealing.Seal` | `capsule_ledger/ledger/capsule.py:79-84` | versions and id first, then the other members in order; fails exactly without a version or an id |
| `Sealing.BuildEventCapsule` | `capsule_ledger/ledger/capsule.py:69-84` | payload, then signature over the digest of everything before it, then the seal |
| `Sealing.SealKeepsMembers` | `capsule_ledger/ledger/capsule.py:79-84` | apart from the id the sealed record has exactly the members of the body, with distinct keys |
| `Sealing.SealLayout` | `capsule_ledger/ledger/capsule.py:79-84` | the sealed record begins with spec_version, format_version and capsule_id; the other members follow in their order; sealing takes exactly the bodies that have both versions and an id |
| `Sealing.SameAddressedSameId` | `capsule_ledger/bundle_viewer/static/offline_shell.html:811-817` | the id depends on nothing but the members called neither chain nor capsule_id (`DeclaredMeans`), up to key order and ignorable members, `__proto__` members included, at every depth |
| `Sealing.SealedVerifies` | `capsule_ledger/bundle_viewer/static/offline_shell.html:819-830` | for every sealable body the recomputed id of the sealed record is the stored one, where producer and viewer compute ids alike, and the viewer reports a match unless the record looks like a disclosure envelope, whose inner record it then judges |
| `Sealing.VerdictExact` | `capsule_ledger/bundle_viewer/static/offline_shell.html:819-830` | not stated exactly when the record has no capsule_id of 64 hex digits; otherwise a match exactly when recomputing gives the stated id, and a record that cannot be printed differs |
| `Sealing.UnwrapMeans` | `capsule_ledger/bundle_viewer/static/offline_shell.html:715` | a member called capsule that is an object or an array is judged instead of the record around it; anything else is taken as it is |
| `Sealing.KeptId` | `capsule_ledger/bundle_viewer/static/offline_shell.html:819-830` | of two records that state one id, the first matching: the second matches exactly when it can be printed and both preimages have one hash, and differs otherwise |
| `Sealing.AlteredDiffers` | `capsule_ledger/bundle_viewer/static/offline_shell.html:819-830` | a record altered after sealing, its id kept: a match where the hashed content is still the same, otherwise it differs, or the two preimages collide |
| `Sealing.SealedThenAltered` | `capsule_ledger/bundle_viewer/static/offline_shell.html:819-830` | the same for a record as sealing writes it, judged by the viewer |
| `Sealing.DocumentedSealVerifies` | `capsule_ledger/ledger/capsule.py:79-84` | for a producer that hashes the documented content the viewer recomputes the stored id if and only if the two texts agree once lone surrogates are replaced, or their bytes collide; the texts agree if and only if the code hashes the body as documented |
| `Sealing.MatchesBindContent` | `capsule_ledger/bundle_viewer/static/offline_shell.html:819-830` | two records that match the same stated id have the same content, or their preimages collide |
| `Sealing.SignedContentRecoverable` | `capsule_ledger/ledger/capsule.py:72-84` | dropping id and signature from the sealed record leaves exactly the members that were digested for signing |
| `Sealing.SignatureCheckable` | `capsule_ledger/ledger/capsule.py:72-84` | the signature in the sealed record is the signer's signature of the digest of the record without id and signature, for any digest that does not depend on the order of members |
| `Sealing.PayloadSealed` | `capsule_ledger/ledger/capsule.py:70-84` | event and detail are in the sealed record under asg_payload |
| `Bundle.SortBySeqMeans` | `capsule_ledger/cli/bundle_cmd.py:119` | sorting orders by sequence number and keeps exactly the records |
| `Bundle.StartFrom` | `capsule_ledger/cli/bundle_cmd.py:105-106` | the dictionary at the start holds exactly the matched records, once each |
| `Bundle.CollectWithParents` | `capsule_ledger/cli/bundle_cmd.py:100-119` | terminates on every ledger, cyclic ones included; returns, sorted and without repeats, exactly the least set that contains the selection and is closed under parents in the ledger; an id is missing exactly when it is not empty, the ledger lacks it, and a returned record cites it |
| `Blame.BundleIsOrbits` | `capsule_ledger/cli/bundle_cmd.py:100-119` | a record is in the bundle exactly when it is on the way back along parents from a selected one, said with the orbit of parents that the blame walk is measured by |
| `Bundle.FindChainGaps` | `capsule_ledger/bundle_viewer/static/offline_shell.html:916-929` | in index order, a gap for each record after the first whose parent is an id of 64 hex digits that no record of the bundle has; it names that parent, that index and the index before |
| `Bundle.GapsExact` | `capsule_ledger/bundle_viewer/static/offline_shell.html:916-929` | that list holds exactly those records, each once, with ascending indices |
| `Bundle.BundleGapsAreReal` | `capsule_ledger/bundle_viewer/static/offline_shell.html:916-929` | in a collected bundle, a record whose cited parent is not among the bundled records is one whose parent is absent from the ledger itself, and conversely |
| `Blame.BlameWalk` | `capsule_ledger/cli/blame_cmd.py:61-92` | terminates on every parent graph; hops are distinct, each the parent of the one before, the walk goes on as long as no terminal condition holds, and it ends with the first one in the code's order; its detail is the parent that the last hop cites, and none for a standalone record |
| `Blame.WalkUnique` | `capsule_ledger/cli/blame_cmd.py:61-92` | ledger, record and depth determine hops and terminal |
| `Blame.TerminalExact` | `capsule_ledger/cli/blame_cmd.py:67-92` | each terminal of the unlimited walk against the orbit of parents, defined without the walk: epoch boundary iff a record on the orbit opens one; otherwise cycle iff the orbit never ends, standalone iff it ends at a record without parent, gap iff it ends at a record whose parent the ledger lacks |
| `Blame.EndsBounded` | `capsule_ledger/cli/blame_cmd.py:78-80` | below the depth limit the reasons to end are those of the unlimited walk; at it the walk ends |
| `Blame.DepthLimit` | `capsule_ledger/cli/blame_cmd.py:78-80` | with a depth limit d the hops are the first max(1, d) hops of the unlimited walk; truncation is reported exactly when that many were reached short of a root or an epoch boundary |
| `Annotate.CitesAlteredRecord` | `capsule_ledger/bundle_viewer/static/offline_shell.html:947-955` | the seen-set walk terminates on cycles and decides whether an altered id is reachable along one or more parent links through records of the bundle |
| `Annotate.IndexById` | `capsule_ledger/bundle_viewer/static/offline_shell.html:943-944` | the table holds exactly the ids of 64 hex digits that some record has, each with the last record that has it |
| `Annotate.ByIdExact` | `capsule_ledger/bundle_viewer/static/offline_shell.html:943-944` | the same of the table as a function of the list |
| `Annotate.ReachesMeansChain` | `capsule_ledger/bundle_viewer/static/offline_shell.html:947-955` | reaching an altered id through the table is a chain of indices in the list, each cited id leading to the last record that has it, that ends with a record citing an altered id |
| `Annotate.AnnotateRecords` | `capsule_ledger/bundle_viewer/static/offline_shell.html:931-958` | the altered ids are exactly those of failed records; each record is noted altered, citing an altered one, or verifying, accordingly: citing exactly when it is not altered itself and such a chain of indices starts at it |
| `Annotate.NotReached` | `capsule_ledger/bundle_viewer/static/offline_shell.html:947-955` | once the walk ends or repeats an id without meeting an altered one, none is reachable in any number of links |
| `Annotate.TableExact` | `capsule_ledger/bundle_viewer/static/offline_shell.html:936-947` | the table lookup finds exactly the failed records if and only if the id is not an inherited name, which no id of the right form is |
| `Annotate.ConstructorAltered` | `capsule_ledger/bundle_viewer/static/offline_shell.html:936-947` | concrete input: a record with the id constructor, of which nothing failed, is noted as altered |
| `Fragment.FragmentsAgree` | `capsule_ledger/cli/bundle_cmd.py:219-220` | producer and viewer write the same fragment for the same bytes: the URL-safe letters of the six-bit groups, unpadded |
| `Fragment.SymbolsValue` | `capsule_ledger/cli/bundle_cmd.py:219-220` | the bits are kept in order: any three bytes and the four digits they give spell the same number, what is missing at the end counting as zero |
| `Fragment.FragmentRoundTrip` | `capsule_ledger/bundle_viewer/static/offline_shell.html:973-980` | for every byte string the viewer decodes the fragment back to it, and its length is never 1 modulo 4 |
| `Fragment.FragmentCanonical` | `capsule_ledger/bundle_viewer/static/offline_shell.html:973-980` | every unpadded text decodes; it is the encoding of what it decodes to if and only if its spare bits are clear |
| `Fragment.AtobExact` | `capsule_ledger/bundle_viewer/static/offline_shell.html:973-978` | text without white space and padding is decoded exactly when it has letters of the alphabet only and not one more than a multiple of four of them |
| `Fragment.AtobIgnoresSpaces` | `capsule_ledger/bundle_viewer/static/offline_shell.html:973-978` | white space anywhere makes no difference to `atob` |
| `Fragment.BytesOfBinary` | `capsule_ledger/bundle_viewer/static/offline_shell.html:976-978` | the loop turns the binary string into its bytes |
| `Fragment.BinaryOfBytes` | `capsule_ledger/bundle_viewer/static/offline_shell.html:982-984` | the loop turns bytes into the binary string that decodes to them |
| `Fragment.DecodeBytes` | `capsule_ledger/bundle_viewer/static/offline_shell.html:973-978` | the decoder, with its padding, `atob` and byte loop, computes the bytes that the round trip speaks of |
| `Fragment.EncodeBytes` | `capsule_ledger/bundle_viewer/static/offline_shell.html:981-986` | the encoder writes what the producer writes, and the decoder reads it back |

## Left out

- SHA-256, HMAC, signatures and the asynchronous Web Crypto plumbing: `H`, the signer and the key checks are parameters.
- The packages `cll`, `agent_action_capsule`, `capsule_emit` and `scitt_cose` are not part of this model. The proofs a ledger hands out are a parameter (`LiveLog`, `MmrIndex`); what an honest ledger hands out is read off the node layout that tests/test_mmr_core.py and tests/test_mmr_kat39.py pin down. `verify_checkpoint_consistency`, `core.verify_inclusion` and `core.leaf_count` are taken to decide as the viewer's verifiers do, on root bytes read from hex as `bytes.fromhex` reads them, and `compute_capsule_id` as the viewer's `computeCapsuleId`; DocumentedSealVerifies says what follows for a producer that hashes the documented content instead.
- The size at which a range proof is made is taken to be the node count right after its last record, as the viewer's description of the certificate says (offline_shell.html, line 999).
- CollectWithParents: does not model lookup by id prefix; `fetch` is taken to be a lookup by full id in a finite ledger.
- BlameWalk: the same lookup by full id.
- CheckCompleteness: dynamic type tests of proof objects are types of the model; a missing proof is `None`.
- AnnotateRecords: whether a record failed its integrity check is an input, one flag a record; digest comparison of revealed payloads is folded into it.
- PrintsCanon: numbers are reals, so NaN, the infinities and negative zero do not occur.
- DecodeBytes: what the viewer does with the decoded bytes (UTF-8 decoding, JSON parsing) is not modelled, nor how EncodeBytes comes by its bytes; `atob` and `btoa` are functions.
- CleanMeansGenuine: checkpoints are taken to be listed in order of size and filed under their own size, the node count of some log, as emitting them does; the log may be shorter or longer than any of them. RollbackDetected takes the log to hand out no decodable consistency proof to a size it does not have, since the code that makes and checks that proof is not part of this model.
- LeafIndexToPos: leaf indices of 2^52 and more, whose double is no safe integer, are not modelled; the verifiers reject every index from the leaf count on before they come here (offline_shell.html, line 593).
- Guards, folds, policy and the key timeline: their code has left the repository.
- Rendering, command-line parsing and printing, file and SQLite storage, the demo simulator, the remote API, the payload store, per-field disclosure checks and the bundle summary stages: input and output, or easy members.
