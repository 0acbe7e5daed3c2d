# Verification of the gates, format tools and bench rig

This project models the hard logic of the repository's Python and Rust tooling and
proves what that logic is relied on for. Each component is a small group of modules.

- **cfg gate** (`CfgScan`, `CfgPredicate`, `CfgVerdict`, `CfgComments`): the bracket
  matcher, the comma splitter and the three-valued evaluator behind "is this item only in
  test builds". Predicates are trees that record the white space and the comments between
  their tokens. Without comments the text evaluator computes the Kleene value of the tree;
  with comments that hold no quote, bracket or comma it is undecided or right, so the
  verdict is safe. The value is exact when no option occurs both as it is and negated.
- **Streaming SHA-256 and parallel fingerprint** (`Sha256`, `Fingerprint`): a buffered
  hasher as a mutable object refines the one-shot definition of FIPS 180-4, sections
  5.1.1 and 6.2.2. A work queue is a state machine over single steps; every schedule
  ends, in a fixed number of steps, with the sequential digest.
- **PAR2 tools** (`Par2Walk`, `Par2Packet`, `Par2File`, `Par2Patch`, `GapRecovery`):
  three scanners of one format, two edits that must leave every packet walkable and
  sealed, the check that follows them, and the selection of recovery slices to destroy.
- **PAR2 repair algebra** (`CharTwo`, `Vandermonde`, `Sums`, `Transforms`, `MixedRadix`,
  `BackSubstitution`, `Gf16`, `Gf16Digits`, `Gf16Order`, `Repair`): the explicit inverse of
  the repair matrix and the two-stage back-substitution that replaces it, over any field of
  characteristic 2, with the transforms of both stages; the field of the format, from shift
  and reduction up to its tables; and the two together: the solves return the missing words.
- **PE imports** (`PeReader`, `PeBuilder`): a fail-closed reader and its builder, the
  round trip between them, and stability of the reader's answers under extension.
- **Debian versions and pruning** (`AptVersion`, `AptIndex`, `StableSort`): the batch
  version key against the character-by-character algorithm of section 5.6.12 of the
  Debian Policy Manual, with the exact set of pairs on which they differ.
- **Stall proxy** (`CrlfLines`, `StallProxy`, `ProxyConnection`): a reordering proxy on
  NNTP command lines as a state machine, with one invariant over all runs.
- **Source stripper and test mask** (`SourceNoise`, `SourcePieces`, `TestMask`): a
  mode-switching lexer that must keep line coordinates, and the mask built on it.
- **Output matcher** (`OutputMatch`): staged claiming of files by expectations.
- **Icon tools** (`PngFilter`, `AlphaRecovery`): row filters undone in place, and
  coverage and colour recovered from two renders with a rounding bound.

`Basics` and `Bytes` hold what several components share. Code that changes state in the
source changes state here: classes `Sha256.Hasher`, `Par2Patch.Editor` and
`ProxyConnection.Connection`, arrays in `PngFilter`, `AlphaRecovery`, `PeBuilder`,
`TestMask`, `OutputMatch`, `Vandermonde` and `Gf16Order`, and loops with invariants elsewhere. Each such method is
tied to a specification function or stated outright, and the laws are proved of that.

Digests, `zlib`, Unicode normalisation, `fnmatch`, random draws and clock readings are
parameters: what is proved holds for every choice of them.

## Where the code differs from its documentation

The model follows the code.

- `packaging/linux/apt-index.py:89-94` promises that `~` sorts before the empty string.
  Python compares lists, so a prefix is below its extension: every version sorts below
  itself with a tilde behind it, `1.0` below `1.0~rc1`
  (`AptVersion.CandidateShadowsRelease`). `AptVersion.AgreesIff` gives the exact set of
  pairs on which code and manual differ; without tildes it is only the empty string
  against zeros (`AptVersion.ClashWithoutTildes`).
- `tools/size-gate.py:258` promises to preserve line structure. A character literal that
  spans a line break is dropped with the break (`SourceNoise.QuotedBreakIsSwallowed`);
  lines are kept exactly when there is none (`SourceNoise.NewlinesKeptIff`).
- `tools/size-gate.py:262-264` promises escapes and character literals. The literal of the
  quote itself, `'\''`, is taken to end at the quote it escapes (`tools/size-gate.py:318`):
  a stray quote stays (`SourcePieces.QuoteLiteralLeavesAQuote`), and with the literal of a
  double quote after it a closing brace can vanish
  (`SourcePieces.QuoteLiteralSwallowsABrace`). `SourcePieces.EscapedChrToken` has the exact
  condition: a literal that starts with a backslash is dropped whole if and only if it
  holds no quote of its own. `SourcePieces.StripsPieces` is stated under it.
- `tools/size-gate.py:297-307` accepts the reversed prefix `rb#*"` but then scans from its
  third character as a plain byte string, so the text of such a string is kept as code
  (`SourcePieces.ReversedPrefixLeaks`).
- `tools/size-gate.py:331` promises the mask for every line of a test item. An item is cut
  at a semicolon in front of its block, as in a parameter of array type
  (`TestMask.ArrayParameterEndsItem`).
- `tools/size-gate.py:332-343` says that an item without braces no longer runs on into what
  comes next. One without a semicolon still does, such as a field of a structure: the scan
  goes on to the next block, and the head of the function behind the structure is masked,
  the line `tools/size-gate.py:470` reads, so that function escapes the ceiling
  (`TestMask.FieldMasksFunction`, and in general `TestMask.RunsOn`).
  `TestMask.EndsWithItem` says exactly which items the scan ends with, and
  `TestMask.MaskIsExactIff` when the whole mask is right: if and only if the test items can
  be cut into groups of neighbours that each close as one item.
- The three PAR2 scanners differ: the one of `par2-ifsc-surgery.py` stops at the first
  malformed header that lies in no packet. `Par2Walk.StrictAgrees` says when that loses
  nothing, and `Par2File.StrayHeaderHidesAll` shows a stray header hiding a whole file.
- The cfg evaluator reads each option afresh, so `all(unix, not(unix))` is not seen to be
  in no build (`CfgVerdict.BothWaysIsMissed`). Without comments only options that occur
  both as they are and negated can mislead it (`CfgVerdict.TestOnlyIsExact`).
- `tools/lock-gate.py:211-214` promises that nothing turns a production site into a pass.
  A comma in a comment does: the predicate `all(/*,test,*/unix)` is `all(unix)`, and is
  called test-only (`CfgComments.CommaInComment`). With comments that hold no quote,
  bracket or comma the verdict errs on the safe side only (`CfgComments.TestOnlyIsSafe`).
- `packaging/icon/rasterize.py:56` slices past the end of a short stream without an error:
  an unfiltered last row may lack up to one pixel and is read as a short row
  (`PngFilter.EmptyRowIsRead`). `PngFilter.ReadRows` says exactly which streams raise.
- The named claims of `bench/capability-corpus/roundtrip.py:359-387` are greedy: one that
  would do with either of two files can take the only one another wants
  (`OutputMatch.NamedClaimCanMiss`). They miss nothing when any two of them accept the same
  files or none in common (`OutputMatch.NamedIsComplete`).

## Model

| member | source | states |
|---|---|---|
| `CfgScan.LiteralEnd` | tools/lock-gate.py:115-119 | the skipping loop both scanners share ends where the literal does, escapes included, also when it never closes |
| `CfgScan.BalancedEnd` | tools/lock-gate.py:106-128 | the index loop finds the bracket that the recursion on the remaining text finds, or none |
| `CfgScan.SplitTop` | tools/lock-gate.py:131-154 | the splitting loop yields the stripped non-blank pieces between top-level commas |
| `CfgScan.PiecesJoin` | tools/lock-gate.py:131-153 | splitting loses and moves nothing: the pieces joined with commas are the text, whatever the brackets and quotes |
| `CfgScan.SplitTopShort` | tools/lock-gate.py:169 | every argument is no longer than the text it was split from, which is why the evaluator's recursion ends |
| `CfgScan.StripPadded` | tools/lock-gate.py:154 | stripping removes exactly the white space around a text with visible ends |
| `CfgScan.WhiteSpace` | tools/lock-gate.py:154 | white space is the 29 characters of Unicode, listed |
| `CfgPredicate.LiteralCloses` | tools/lock-gate.py:115-120 | a written string value, escapes included, closes at its own quote and not before |
| `CfgPredicate.BalanceNode` | tools/lock-gate.py:106-128 | inside brackets any rendered predicate leaves the depth as it was, string values with brackets and quotes included |
| `CfgPredicate.PiecesNode` | tools/lock-gate.py:131-153 | the splitter copies any rendered predicate whole into the current piece |
| `CfgVerdict.CallBalances` | tools/lock-gate.py:166-169 | the bracket of a rendered call matches at the end of the text, and what it encloses is the argument list |
| `CfgVerdict.SplitsArgs` | tools/lock-gate.py:131-154 | for every spacing and trailing comma the splitter hands back exactly the rendered arguments, in order |
| `CfgVerdict.CombineIsFold` | tools/lock-gate.py:170-182 | the code's case analysis for `all` and `any` is Kleene's strong conjunction and disjunction |
| `CfgVerdict.ValueIsKleene` | tools/lock-gate.py:157-185 | for every predicate, every white space in and around it (and any comment around a sign of equality), the text evaluator returns the Kleene value with `test` off |
| `CfgVerdict.KleeneSound` | tools/lock-gate.py:157-164 | a decided value is the predicate's truth in every build with `test` off |
| `CfgVerdict.Leans` | tools/lock-gate.py:157-164 | the build with the options of one sign on and those of the other off takes the predicate the way of the first sign, unless its value is against it |
| `CfgVerdict.KleeneIsExact` | tools/lock-gate.py:157-164 | when no option occurs both as it is and negated, "no" means false in every build, "yes" true in every build, and an undecided predicate has builds of both kinds |
| `CfgVerdict.TestOnlyIsExact` | tools/lock-gate.py:188-216 | when no option occurs both as it is and negated: test-only if and only if the predicate is false in every build with `test` off |
| `CfgVerdict.BothWaysIsMissed` | tools/lock-gate.py:157-185 | an option that does can be missed: `all(unix, not(unix))` holds in no build and is not called test-only |
| `CfgVerdict.AttrVerdict` | tools/lock-gate.py:219-228 | from source lines to verdict, without comments: the line opens test scope exactly when the Kleene value of the attribute's predicate is "no", whatever follows it |
| `CfgVerdict.OpeningIsRead` | tools/lock-gate.py:89 | white space of any length, `#[`, white space, `cfg`, white space and a bracket open an attribute, at the index behind the bracket |
| `CfgVerdict.OnlyOpenings` | tools/lock-gate.py:89 | no other line does |
| `CfgVerdict.JoinOne` | tools/lock-gate.py:224 | joining puts a line break between neighbours and nothing else |
| `CfgVerdict.WrappedVerdict` | tools/lock-gate.py:219-228 | on the lines as they stand in the file: an attribute that is indented and wrapped over one to eight lines opens test scope exactly when the Kleene value of its predicate is "no" |
| `CfgVerdict.EightLines` | tools/lock-gate.py:103-224 | nothing but the line and the seven behind it decides |
| `CfgComments.GapJoin` | tools/lock-gate.py:106-128 | gaps put together are a gap: any run of white space and comments without quote, bracket or comma is one |
| `CfgComments.CommentedCall` | tools/lock-gate.py:165-166 | a call with a comment before its bracket or behind it is undecided |
| `CfgComments.ArgsLoose` | tools/lock-gate.py:131-169 | with such comments the pieces between commas have the values of the arguments, undecided where a comment is in the way, and at most one more, undecided |
| `CfgComments.CombineLoose` | tools/lock-gate.py:170-182 | that loses information only: `all`, `any` and `not` of it are undecided or what they were |
| `CfgComments.NeverWrong` | tools/lock-gate.py:157-185 | for every predicate, white space and comments without quote, bracket or comma anywhere between its tokens: the value is undecided or the Kleene value |
| `CfgComments.TestOnlyIsSafe` | tools/lock-gate.py:200-216 | an item called test-only is in no build without `test`, with such comments or without |
| `CfgComments.AttrIsSafe` | tools/lock-gate.py:219-228 | from source lines to verdict: a line that opens test scope opens an item of no build without `test` |
| `CfgComments.WrappedIsSafe` | tools/lock-gate.py:219-228 | the same with comments, on the wrapped lines as they stand in the file |
| `CfgComments.CommaInComment` | tools/lock-gate.py:211-214 | with a comma in a comment an item of every build with an option is called test-only |
| `Sha256.AbsorbAppend` | bench/component/shootout.rs:63-107 | chaining over a concatenation continues from the chain of the whole blocks before it |
| `Sha256.WrappedIsDigest` | bench/component/shootout.rs:131-144 | below 2^61 bytes the wrapping 64-bit bit count changes nothing: the code's digest is that of FIPS 180-4 |
| `Sha256.PadMod` | bench/component/shootout.rs:134-136 | no smaller count of zeros than the one of section 5.1.1 reaches byte 56 of a block, so the padding loop stops there |
| `Sha256.InitialRoots` | bench/component/shootout.rs:55-58 | the initial words are the first 32 bits of the fractional parts of the square roots of the first eight primes, as section 5.3.3 has it |
| `Sha256.PaddedLaw` | bench/component/shootout.rs:131-138 | the padded message is the message, a byte 128, zeros, and eight bytes whose big-endian value is the bit count; it is whole blocks |
| `Sha256.EncodedWord` | bench/component/shootout.rs:139-144 | word i of the state is the big-endian value of bytes 4i to 4i + 3 of the output, which has no others |
| `Sha256.Hasher.constructor` | bench/component/shootout.rs:52-62 | a fresh hasher has absorbed the empty message |
| `Sha256.Hasher.Update` | bench/component/shootout.rs:108-130 | the message absorbed grows by exactly the data, for every fill of the buffer and every length |
| `Sha256.Hasher.TopUp` | bench/component/shootout.rs:110-120 | a part-filled buffer takes a prefix of the data, and is empty again if any data is left |
| `Sha256.Hasher.Blocks` | bench/component/shootout.rs:121-129 | from an empty buffer, whole blocks go to the chain, the rest to the buffer, and the message grows by the data |
| `Sha256.Hasher.PadTail` | bench/component/shootout.rs:133-136 | the padding loop ends, having appended the one bit and the least number of zeros |
| `Sha256.Hasher.Finish` | bench/component/shootout.rs:131-144 | the output is the digest of everything absorbed, for every message, with the bit count modulo 2^64 |
| `Sha256.HashParts` | bench/component/shootout.rs:108-144 | however a message is cut into updates, the result is the digest of the whole message |
| `Fingerprint.ChunksTile` | bench/component/shootout.rs:158-183 | the chunks concatenate to the file; the empty file is one empty chunk, otherwise none is empty or too long |
| `Fingerprint.MoveInv` | bench/component/shootout.rs:167-187 | each step of any worker keeps: indices handed out once and in order, none held twice, and each either held or stored with its own digest |
| `Fingerprint.RunInv` | bench/component/shootout.rs:163-189 | the invariant holds after every schedule |
| `Fingerprint.AnyInterleaving` | bench/component/shootout.rs:157-189 | when all workers have returned, the table is the sequential one and the claims are 0, 1, 2, ... in order |
| `Fingerprint.StandardDigests` | bench/component/shootout.rs:155-189 | with the source's chunk size, 32 MiB, every entry of the finished table is the FIPS 180-4 digest of its chunk, for files of any length, and there are as many as that size gives |
| `Fingerprint.Collect` | bench/component/shootout.rs:190-194 | the last loop returns the hash of the chunk hashes, 32 bytes each and in the order of the chunks, whatever the schedule |
| `Fingerprint.EveryRunEnds` | bench/component/shootout.rs:163-189 | a schedule of live workers is never longer than three steps a chunk and one a thread, and is finished exactly at that length |
| `Par2Walk.WalkReal` | bench/capability-corpus/par2patch.py:38-52 | every listed packet has the magic and a usable length where it is listed |
| `Par2Walk.WalkOrdered` | bench/capability-corpus/par2patch.py:38-52 | listed packets do not overlap and are in file order |
| `Par2Walk.WalkComplete` | bench/capability-corpus/par2patch.py:38-52 | every valid header is listed or lies inside a listed packet |
| `Par2Walk.WalkUnique` | bench/capability-corpus/par2patch.py:38-52 | these three properties admit only one list |
| `Par2Walk.MagicHasNoBorder` | bench/component/par2-gap-recovery.py:65-69 | no magic starts inside another one, so stepping over eight bytes skips nothing |
| `Par2Walk.FindMagic` | bench/capability-corpus/par2patch.py:43 | the search finds the first magic from an offset on, or there is none |
| `Par2Packet.MarkersSpell` | bench/capability-corpus/par2patch.py:26-28 | the magic and the two kinds are the texts of the format |
| `Par2Walk.Packets` | bench/capability-corpus/par2patch.py:38-52 | the scanner that resumes one byte later returns the walk |
| `Par2Walk.PacketsByMagic` | bench/component/par2-gap-recovery.py:56-71 | the scanner that resumes eight bytes later returns the same walk on every byte string |
| `Par2Walk.FirstMalformedLeast` | bench/component/par2-ifsc-surgery.py:32-33 | the header that stops the strict scanner is the first malformed one outside all packets |
| `Par2Walk.BeforePrefix` | bench/component/par2-ifsc-surgery.py:25-35 | what comes before a stop is a prefix of the list, cut exactly at the first packet past the stop |
| `Par2Walk.PacketsStrict` | bench/component/par2-ifsc-surgery.py:25-35 | the third scanner returns the packets before the first malformed header |
| `Par2Walk.StrictAgrees` | bench/component/par2-ifsc-surgery.py:25-35 | it agrees with the other two if and only if no packet follows a malformed header outside all packets |
| `Par2File.StrayHeaderHidesAll` | bench/component/par2-ifsc-surgery.py:31-33 | with a magic and a length of zero in front, the strict scanner finds nothing of a file the other two read whole |
| `Par2Packet.Renaming.ApplyLaw` | bench/capability-corpus/par2patch.py:99-108 | a rewritten packet keeps its header and fixed fields, is sealed and carries the new name (read back exactly when it has no trailing NUL); any other packet is untouched |
| `Par2Packet.RepackLaw` | bench/capability-corpus/par2patch.py:129-138 | a rebuilt packet is framed by its own length field, sealed, and has the given set, kind and body |
| `Par2Packet.DescLaw` | bench/capability-corpus/par2patch.py:119-127 | field by field: the id is the hash of the hash of nothing, eight zeros and the name; both hashes are those of nothing, the length is zero, the name is padded with fewer than four zeros; it reads back as a sealed zero-length file with the name exactly when the name has no trailing NUL |
| `Par2Packet.MainLaw` | bench/capability-corpus/par2patch.py:149-153 | a Main body gains one, lists the new id last in the recovery set, and keeps its other fields and what follows; a list that does not fit stays that way |
| `Par2File.WalkKept` | bench/capability-corpus/par2patch.py:95-111 | no edit that spares magic, length and kind of the packets changes what a re-walk finds |
| `Par2File.OverwriteOne` | bench/capability-corpus/par2patch.py:55-58 | overwriting one packet changes no other packet and no byte outside it |
| `Par2File.RenameKeepsWalk` | bench/capability-corpus/par2patch.py:95-111 | a completed rename leaves the packet list as it was |
| `Par2File.RenameLaw` | bench/capability-corpus/par2patch.py:95-111 | after a rename each packet of the old name is sealed and carries the new one, the others are identical, and none carries the old name |
| `Par2File.HitCountPositive` | bench/capability-corpus/par2patch.py:98-111 | the returned count is positive exactly when some packet carries the name |
| `Par2File.HitCountIs` | bench/capability-corpus/par2patch.py:98-111 | it is the number of packets that carry the name |
| `Par2File.WalkConcat` | bench/capability-corpus/par2patch.py:140-166 | framed parts written one after the other are found again at the places they were written to |
| `Par2File.ConcatPackets` | bench/capability-corpus/par2patch.py:140-166 | a file of framed parts holds exactly those packets |
| `Par2Patch.PatchedLaw` | bench/capability-corpus/par2patch.py:148-157 | a patched packet is framed, of the same kind and set; a Main is sealed around the edited body, any other is the same bytes |
| `Par2Patch.PatchAllLaw` | bench/capability-corpus/par2patch.py:143-157 | either all packets are patched one for one, or some packet cannot be |
| `Par2Patch.MainsAre` | bench/capability-corpus/par2patch.py:148-154 | the count of patched Mains is the number of packets of that kind |
| `Par2Patch.Editor.ResealAt` | bench/capability-corpus/par2patch.py:55-58 | in place, only the seal of the packet changes |
| `Par2Patch.Editor.RewriteAt` | bench/capability-corpus/par2patch.py:105-107 | in place, the packet becomes the resealed packet with the new name and nothing else changes |
| `Par2Patch.Editor.RenamePacket` | bench/capability-corpus/par2patch.py:99-108 | one turn of the loop: the fatal misfit exactly when the name hits and does not fit, else the packet in its new form |
| `Par2Patch.Editor.RenameListed` | bench/capability-corpus/par2patch.py:99-108 | the loop finishes exactly when the name fits wherever it hits; it then counts the hits and has renamed those |
| `Par2Patch.Editor.RenameFileDesc` | bench/capability-corpus/par2patch.py:95-111 | success if and only if there is a hit and all fit; then the count is returned and the file is the renamed one, walk unchanged |
| `Par2Patch.Editor.PatchListed` | bench/capability-corpus/par2patch.py:140-157 | the output buffer is the patched packets in order, with the number of Mains, or the first impossible packet stops it |
| `Par2Patch.SplicedWalk` | bench/capability-corpus/par2patch.py:140-166 | walking the written output gives back the patched packets and the new descriptor |
| `Par2Patch.SplicedLinked` | bench/capability-corpus/par2patch.py:114-167 | the parts byte by byte: packets in order, every Main counting one more and listing the id that the descriptor behind them has, any other packet the same bytes, and that descriptor in the set of the first packet |
| `Par2Patch.Editor.SpliceEmpty` | bench/capability-corpus/par2patch.py:114-167 | fatal exactly on a file without packets, an exception exactly when a packet cannot be rebuilt, both leaving the data alone; else a re-walk gives all packets in order, Mains edited, descriptor last |
| `Par2Patch.Verify` | bench/capability-corpus/par2patch.py:66-92 | the check passes if and only if there are packets, all are sealed, and the wanted name or empty file is there |
| `Par2Patch.VerifyEmpty` | bench/capability-corpus/par2patch.py:82-92 | the second loop accepts exactly when a matching descriptor is empty and no read runs past the end |
| `Par2Patch.RenameVerifies` | bench/capability-corpus/par2patch.py:66-111 | after a rename the check passes if and only if every packet left alone was sealed before |
| `Par2Patch.SpliceVerifies` | bench/capability-corpus/par2patch.py:66-167 | after a splice the check passes if and only if every packet other than the Mains was sealed before |
| `Gf16.TimesTwiceRight` | crates/nzbkit-base/src/gf16.rs:27-47 | a step of the table loop on one factor is a step on the product: reduction by the polynomial goes through multiplication |
| `Gf16.ReductionIsRight` | crates/nzbkit-base/src/gf16.rs:14-15 | x^16 acts on every word as x^12 + x^3 + x + 1 does |
| `Gf16.TimesThree` | crates/nzbkit-base/src/gf16.rs:49-55 | the product of polynomials, reduced, is associative |
| `Gf16.TimesFlip` | crates/nzbkit-base/src/gf16.rs:49-55 | and commutative |
| `Gf16.ExpAdds` | crates/nzbkit-base/src/gf16.rs:59-61 | powers of 2 multiply by adding their exponents |
| `Gf16Digits.SquareOfWord` | crates/nzbkit-base/src/gf16.rs:49-55 | squaring is linear: the digits of a square are the given sums of digits |
| `Gf16Order.FullOrder` | crates/nzbkit-base/src/gf16.rs:41 | 2 has the full order: no power below 65535 is one, which the source asserts when it builds the tables |
| `Gf16Order.ExpOrder` | crates/nzbkit-base/src/gf16.rs:41 | power 65535 is one |
| `Gf16Order.LogExists` | crates/nzbkit-base/src/gf16.rs:23-24 | every word but zero is a power of 2 below the order |
| `Gf16Order.GfLawful` | crates/nzbkit-base/src/gf16.rs:1-5 | the words with these two operations are a field of characteristic 2 |
| `Gf16Order.FillPowers` | crates/nzbkit-base/src/gf16.rs:33-40 | the loop fills the first half of the powers and the logarithms of all words it reaches |
| `Gf16Order.Tables` | crates/nzbkit-base/src/gf16.rs:27-47 | the tables hold the powers of 2, twice over, and a logarithm of exactly the words that are not zero |
| `Gf16Order.Mul` | crates/nzbkit-base/src/gf16.rs:49-55 | multiplying by the tables is multiplying polynomials |
| `Gf16Order.Inv` | crates/nzbkit-base/src/gf16.rs:64-68 | the table inverse times the word is one |
| `CharTwo.RootsOf` | crates/nzbkit-base/src/par2repair/linalg.rs:1573-1592 | the polynomial built from the nodes vanishes at exactly the nodes |
| `CharTwo.Division` | crates/nzbkit-base/src/par2repair/linalg.rs:1616-1621 | synthetic division by z + g is division with remainder p(g) |
| `CharTwo.QuotientVanishes` | crates/nzbkit-base/src/par2repair/forney.rs:46-47 | the quotient by one node vanishes at every other |
| `CharTwo.SimpleRoot` | crates/nzbkit-base/src/par2repair/linalg.rs:1622-1629 | the denominator is zero exactly when the node occurs twice |
| `Vandermonde.SlopeByOdds` | crates/nzbkit-base/src/par2repair/forney.rs:1147-1177 | the denominator is the value of the odd coefficients at the square of the node |
| `Vandermonde.InverseSolves` | crates/nzbkit-base/src/par2repair/linalg.rs:1568-1593 | with distinct nodes, the row of the explicit inverse times the syndromes is the unknown, whatever the unknowns |
| `Vandermonde.StagesAreInverse` | crates/nzbkit-base/src/par2repair/forney.rs:46-56 | on every vector the two stages give what the row of the inverse gives |
| `Vandermonde.StagesSolve` | crates/nzbkit-base/src/par2repair/forney.rs:35-56 | so the two stages return the unknowns |
| `Vandermonde.MultiplyIn` | crates/nzbkit-base/src/par2repair/forney/locator.rs:48-55 | the downward walk multiplies by z + g in place |
| `Vandermonde.Locator` | crates/nzbkit-base/src/par2repair/forney/locator.rs:45-57 | the loop builds the polynomial with the given roots |
| `Vandermonde.Divide` | crates/nzbkit-base/src/par2repair/linalg.rs:1616-1621 | the downward loop computes the quotient |
| `Vandermonde.BuildRow` | crates/nzbkit-base/src/par2repair/linalg.rs:1613-1637 | the row of the inverse, or nothing when the node occurs twice |
| `Vandermonde.InvertVandermonde` | crates/nzbkit-base/src/par2repair/linalg.rs:1594-1656 | the rows of the inverse, or nothing if and only if two nodes are the same |
| `Vandermonde.Prepare` | crates/nzbkit-base/src/par2repair/forney.rs:1133-1190 | the polynomial and the scale of each column, or nothing if and only if there is no column or two nodes are the same |
| `Sums.RootsCancel` | crates/nzbkit-base/src/par2repair/forney.rs:58-69 | the powers of a root of odd order, at any stride, sum to one or cancel |
| `Transforms.Convolves` | crates/nzbkit-base/src/par2repair/forney.rs:58-69 | multiplying spectra and transforming back gives the convolution, with nothing wrapped around, where the input is a segment and the length the source chose |
| `Transforms.WayBack` | crates/nzbkit-base/src/par2repair/forney.rs:1236-1244 | the reduced exponents of the inverse transform are those of the way back |
| `Transforms.SegmentsGiveHankel` | crates/nzbkit-base/src/par2repair/forney.rs:58-69 | for any number of segments that cover the syndromes, the triangular sum of spectra gives every entry of the Hankel product |
| `Transforms.HalvesJoin` | crates/nzbkit-base/src/par2repair/forney.rs:1248-1256 | the two halves of an exponent, each reduced modulo its own factor, multiply to the whole power |
| `Transforms.EvaluatedIsEval` | crates/nzbkit-base/src/par2repair/forney.rs:85-98 | partial rows by residue, then the other half over them, are the value of the polynomial at the node |
| `MixedRadix.OneNatural` | crates/nzbkit-base/src/par2repair/forney.rs:545-565 | the coordinates of 255 = 3 * 5 * 17 name every index once |
| `MixedRadix.StageGathers` | crates/nzbkit-base/src/par2repair/forney.rs:588-665 | a stage of one radix sums every entry once, with the coefficient of its residue |
| `MixedRadix.MixedIsTransform` | crates/nzbkit-base/src/par2repair/forney.rs:588-665 | the forward network, pruned at the source, computes the transform |
| `MixedRadix.MixedBackIs` | crates/nzbkit-base/src/par2repair/forney.rs:667-705 | the inverse network, pruned at the destination, computes the way back |
| `MixedRadix.NetworkGivesHankel` | crates/nzbkit-base/src/par2repair/forney.rs:1405-1490 | stage one through the network, the default, gives the Hankel product |
| `BackSubstitution.Forward` | crates/nzbkit-base/src/par2repair/forney.rs:1230-1235 | the spectrum of a segment, from the table of powers |
| `BackSubstitution.PointSums` | crates/nzbkit-base/src/par2repair/forney.rs:1456-1468 | the spectrum of an output segment, over the segments that are left |
| `BackSubstitution.HankelStage` | crates/nzbkit-base/src/par2repair/forney.rs:1405-1490 | stage one by segments is the Hankel product, short last segment included |
| `BackSubstitution.PartialRow` | crates/nzbkit-base/src/par2repair/forney.rs:1259-1269 | every 257th entry with its coefficient, up to the end |
| `BackSubstitution.EvaluateStage` | crates/nzbkit-base/src/par2repair/forney.rs:1507-1562 | stage two is the scaled value at the node |
| `BackSubstitution.Solve` | crates/nzbkit-base/src/par2repair/forney.rs:1576-1581 | the whole solve gives for every column what the two stages are defined to give, or nothing exactly without columns or with two nodes alike |
| `Repair.UnweightLaw` | crates/nzbkit-base/src/par2repair/forney.rs:1180-1181 | the negated exponent undoes the weight of the column |
| `Repair.NodesDistinct` | crates/nzbkit-base/src/par2repair/linalg.rs:1590-1593 | base logs below the order give distinct nodes if and only if they are distinct, so the solve of distinct logs does not refuse |
| `Repair.SyndromeAt` | crates/nzbkit-base/src/par2repair/linalg.rs:1573-1576 | the syndromes at consecutive exponents are the matrix times the unknowns |
| `Repair.RepairReturns` | crates/nzbkit-base/src/par2repair/forney.rs:35-56 | in the field of the format: for distinct base logs, any first exponent and any missing words, the explicit inverse and the two-stage solve both return the missing words |
| `Repair.TransformConstants` | crates/nzbkit-base/src/par2repair/forney.rs:187-199 | `2^257` has order 255, and 255 and 257 split the exponents with 128 undoing either |
| `PeReader.SectionTable` | packaging/pe-imports.py:146-158 | the section loop reads the table or fails where it is cut short |
| `PeReader.Resolve` | packaging/pe-imports.py:160-168 | by index: if section k covers the address and none before it does, the file offset is its own plus the distance, or the error if that is beyond its bytes; if none covers it, the error |
| `PeReader.SectionAt` | packaging/pe-imports.py:146-158 | section k is read from the 40 bytes at 40 k into the table: address, the larger of the two sizes, and where its bytes are |
| `PeReader.SectionsRead` | packaging/pe-imports.py:146-158 | the table is read if and only if all of it is inside the file |
| `PeReader.NotPeIff` | packaging/pe-imports.py:112-116 | exactly which files are refused as not in the format; every other failure is the other error |
| `PeReader.HeaderCases` | packaging/pe-imports.py:118-142 | what the header fields decide, byte by byte: no optional header or an unknown format is an error, fewer than two directories or no import directory is no imports |
| `PeReader.NamelessSkipped` | packaging/pe-imports.py:187-189 | a descriptor without a name address is stepped over |
| `PeReader.WalkDescriptors` | packaging/pe-imports.py:176-192 | the descriptor loop collects names up to the terminator, within its budget, or fails |
| `PeReader.ReadImports` | packaging/pe-imports.py:105-192 | the whole reader, with its loops, computes the specification in all three outcomes |
| `PeReader.DescriptorsExtend` | packaging/pe-imports.py:176-192 | a successful walk of the descriptors is not changed by bytes after it |
| `PeReader.ImportedDllsExtend` | packaging/pe-imports.py:105-192 | once the reader has an answer, no bytes after it change that answer |
| `PeReader.TruncationNeverMisreads` | packaging/pe-imports.py:105-111 | a truncated file is refused or gives the full file's answer |
| `PeBuilder.FieldReads` | packaging/pe-imports.py:253-271 | fields that do not overlap read back as written, whatever is written after them |
| `PeBuilder.NameInBlob` | packaging/pe-imports.py:239-249 | each name stands, NUL-terminated, where its descriptor says |
| `PeBuilder.TableReads` | packaging/pe-imports.py:176-192 | walking the built table from any descriptor yields the remaining names unless the budget runs out first |
| `PeBuilder.RoundTrip` | packaging/pe-imports.py:224-272 | what the reader makes of a built image in every case: the names for two or more directories and fewer than 4096 names, else the empty list or the error |
| `PeBuilder.HeaderLayout` | packaging/pe-imports.py:251-271 | where the fields of a built image are, as offsets and numbers, in both formats |
| `PeBuilder.Write` | packaging/pe-imports.py:254-271 | a slice assignment into the header changes that slice only |
| `PeBuilder.NameAddresses` | packaging/pe-imports.py:238-242 | the addresses are those of the names laid out past the table |
| `PeBuilder.BuildBlob` | packaging/pe-imports.py:243-249 | the blob loops write table, terminator and names |
| `PeBuilder.BuildHeader` | packaging/pe-imports.py:251-271 | the assignments in order give the header of the specification |
| `PeBuilder.BuildPe` | packaging/pe-imports.py:224-272 | an image results exactly when every number fits its field, and it is the specified one |
| `StableSort.InsertDescends` | packaging/linux/apt-index.py:181 | inserting keeps a descending list descending under a total preorder |
| `StableSort.SortLaw` | packaging/linux/apt-index.py:181 | the sorted group is a descending permutation of the group |
| `StableSort.SortStable` | packaging/linux/apt-index.py:181 | equals keep their order: the elements that tie with any one stand in the sorted list as they stood before |
| `AptVersion.CutParts` | packaging/linux/apt-index.py:105-117 | the index loop cuts a string into its runs, orders and numbers |
| `AptVersion.OrderRanks` | packaging/linux/apt-index.py:96-103 | a tilde weighs less than a digit, which weighs less than any letter, letters are ordered by code, and every other character weighs more than any letter |
| `AptVersion.HornerDigit` | packaging/linux/apt-index.py:112-116 | digits are read in base ten, the last one lowest |
| `AptVersion.NumbersAgree` | packaging/linux/apt-index.py:112-116 | comparing digit runs after their zeros, digit by digit, is comparing the numbers |
| `AptVersion.TextsAgree` | packaging/linux/apt-index.py:96-116 | comparing order lists agrees with the scan of section 5.6.12 exactly when neither run stops where the other has a tilde |
| `AptVersion.DebianByRuns` | packaging/linux/apt-index.py:86-94 | the character scan of section 5.6.12 decides by the first differing text run, else by the numbers and what is left |
| `AptVersion.AgreesIff` | packaging/linux/apt-index.py:105-117 | for all pairs of strings: code and manual order them alike if and only if they do not clash at a tilde or an empty string |
| `AptVersion.ClashWithoutTildes` | packaging/linux/apt-index.py:105-117 | without tildes the only clash is the empty string against a string of zeros |
| `AptVersion.CandidateShadowsRelease` | packaging/linux/apt-index.py:89-94 | the tilde rule of the docstring fails for every version: followed by a tilde it is above itself in the code, below itself in the manual |
| `AptVersion.EmptyAgainstTilde` | packaging/linux/apt-index.py:89-94 | the empty string is below a tilde and what follows it in the code, above it in the manual |
| `AptIndex.ClashTies` | packaging/linux/apt-index.py:122-125 | upstream parts that clash tie for the manual exactly when one is empty and the other all zeros, and the code then puts the empty one below |
| `AptIndex.KeyOfThree` | packaging/linux/apt-index.py:119-125 | a version with an epoch of digits, and a revision without dash, has the key of its three parts in that order, whatever dashes and colons the upstream part holds |
| `AptIndex.KeyWithoutRevision` | packaging/linux/apt-index.py:119-125 | without a dash the revision is empty |
| `AptIndex.KeyWithoutEpoch` | packaging/linux/apt-index.py:119-125 | without a colon the epoch is zero |
| `AptIndex.KeyOfUpstream` | packaging/linux/apt-index.py:119-125 | and without either both |
| `AptIndex.KeyRaises` | packaging/linux/apt-index.py:120-125 | there is no key exactly when what is in front of the first colon is not all digits |
| `AptIndex.VersionsAgreeIff` | packaging/linux/apt-index.py:119-125 | for all versions with a key: ordered as in the manual exactly when epochs differ, or the upstream versions do not clash and, where they tie, neither do the revisions, or they clash as nothing against zeros and the revisions fall the same way |
| `AptIndex.KeyOrder` | packaging/linux/apt-index.py:125 | keys are totally ordered: antisymmetric, transitive, and only equal keys tie |
| `AptIndex.SplitLaw` | packaging/linux/apt-index.py:181-183 | in each group nothing is lost, `keep` entries stay (or all), for a negative `keep` that many go (or all), and the key of every kept version is at least that of every dropped one |
| `AptIndex.SelectCounts` | packaging/linux/apt-index.py:176-178 | a group is the entries of one package and one architecture, as often as they occur |
| `AptIndex.TiesKeptFirst` | packaging/linux/apt-index.py:181-183 | among versions that tie, those that stay are the first of the group |
| `AptIndex.Grouped` | packaging/linux/apt-index.py:176-178 | the dictionary holds each group's entries in order, each key once |
| `AptIndex.JoinedSelect` | packaging/linux/apt-index.py:179-189 | appending group after group gives each group exactly its own side of the split |
| `AptIndex.Prune` | packaging/linux/apt-index.py:174-189 | fails exactly on a non-numeric epoch; else kept and dropped are the two sides of the split in every group |
| `CrlfLines.LinesOfChunks` | bench/capability-corpus/roundtrip.py:786-789 | framing a stream piecemeal gives the lines and the remainder of the whole stream, wherever it is cut |
| `CrlfLines.LinesJoin` | bench/capability-corpus/roundtrip.py:787-789 | lines and remainder put together are the stream |
| `CrlfLines.LinesEnd` | bench/capability-corpus/roundtrip.py:787-789 | every line ends in its first CR LF, and the remainder holds none |
| `StallProxy.RuleForSeen` | bench/capability-corpus/roundtrip.py:702-712 | counts only grow, and a rule for first requests applies at most once for each id |
| `StallProxy.RuleForCounts` | bench/capability-corpus/roundtrip.py:702-711 | only requests under a rule that stalls the first are counted, each by one, and all but the first of them go through |
| `StallProxy.MessageIdIff` | bench/capability-corpus/roundtrip.py:815-820 | a line asks for an id if and only if it is one of the four commands in either case, blanks, and the id between its brackets |
| `StallProxy.FirstMatchIs` | bench/capability-corpus/roundtrip.py:702-706 | by index: the rule taken is the one whose pattern matches while none before it does |
| `StallProxy.TakeConserves` | bench/capability-corpus/roundtrip.py:787-804 | taking a line keeps: every line taken is sent or held, once, and no other is |
| `StallProxy.PassConserves` | bench/capability-corpus/roundtrip.py:827-837 | a release pass keeps it |
| `StallProxy.ReceiveFrames` | bench/capability-corpus/roundtrip.py:786-787 | new data only adds lines after those already complete |
| `StallProxy.TakeFrames` | bench/capability-corpus/roundtrip.py:787-789 | the next line taken is the next line of the client's stream |
| `StallProxy.PassReleases` | bench/capability-corpus/roundtrip.py:832-837 | a pass at or after its deadline forwards a held line; what stays is neither due nor late |
| `StallProxy.BaseIsCounter` | bench/capability-corpus/roundtrip.py:795 | in any run the base of a held or released line is the counter at the event that took it |
| `StallProxy.CounterCounts` | bench/capability-corpus/roundtrip.py:822-825 | the counter is the number of commands sent, here and on other connections |
| `StallProxy.PassDecides` | bench/capability-corpus/roundtrip.py:795-837 | told by event prefixes: a pass leaves a held line waiting if and only if its ceiling is not reached and either fewer commands than its rule asks for were forwarded since the line was taken or its delay is not over; otherwise the line is sent |
| `StallProxy.OnlyPassesRelease` | bench/capability-corpus/roundtrip.py:786-837 | no other event releases a held line |
| `StallProxy.TakeHeldOnce` | bench/capability-corpus/roundtrip.py:705-710 | a rule for first requests has held at most one request for each id |
| `StallProxy.StepInv` | bench/capability-corpus/roundtrip.py:761-837 | every step keeps the whole invariant |
| `StallProxy.TakeCounted` | bench/capability-corpus/roundtrip.py:702-710 | the count of an id under a rule that stalls the first request is the number of requests for it, on this connection and on others |
| `StallProxy.TakeByPlan` | bench/capability-corpus/roundtrip.py:790-804 | a line taken is held under the first rule that matches its id, from its arrival on, and under a rule for first requests only if it is the first of its connection; it is sent at once only if no rule matches, or the rule is for first requests and there was another one, before it or elsewhere |
| `StallProxy.RunInv` | bench/capability-corpus/roundtrip.py:761-837 | after every run, for any chunking, clock and other traffic: lines conserved and framed, unheld lines in arrival order, each line held or let through as the plan asks, every early release justified by its gate, sent text is the client's |
| `StallProxy.HeldIsWanted` | bench/capability-corpus/roundtrip.py:702-804 | a line that was held is one the plan asks to hold: under a rule for first requests, the first for its id on the connection |
| `StallProxy.HeldExactly` | bench/capability-corpus/roundtrip.py:702-804 | after any run, of the lines whose article no other connection asked for, the plan holds exactly those it asks to: all under a rule for every request, the first for each id under a rule for first requests |
| `StallProxy.OutInTime` | bench/capability-corpus/roundtrip.py:669-678 | after any run the first pass at or after a held line's arrival plus its ceiling forwards it |
| `ProxyConnection.DrainLaw` | bench/capability-corpus/roundtrip.py:787-804 | a drained connection has taken every complete line the client has sent |
| `ProxyConnection.Connection.Take` | bench/capability-corpus/roundtrip.py:788-805 | the loop body on the fields is the step of the model |
| `ProxyConnection.Connection.OnData` | bench/capability-corpus/roundtrip.py:786-805 | after any chunk the object has taken all complete lines of the stream so far and kept the invariant |
| `ProxyConnection.Connection.ReleasePass` | bench/capability-corpus/roundtrip.py:827-837 | the pass over the hold list is the release step and keeps the invariant |
| `ProxyConnection.Connection.ReleaseLoop` | bench/capability-corpus/roundtrip.py:831-837 | the loop sends the due entries in order, keeps the others in order, and counts what it sends |
| `ProxyConnection.Connection.Forward` | bench/capability-corpus/roundtrip.py:822-825 | one command is appended and counted |
| `SourceNoise.NewlineBalance` | tools/size-gate.py:257-327 | newlines of the text are those kept and those inside dropped character literals |
| `SourceNoise.CountIs` | tools/size-gate.py:257-327 | newlines are counted each once |
| `SourceNoise.KeptPlaced` | tools/size-gate.py:257-327 | each output character is the one at its origin, off its line by the swallowed newlines only |
| `SourceNoise.KeptOrdered` | tools/size-gate.py:257-327 | output characters come from strictly ascending places |
| `SourceNoise.NewlinesKeptIff` | tools/size-gate.py:257-258 | the newline count is kept if and only if no character literal spans a line break |
| `SourceNoise.LinesKept` | tools/size-gate.py:257-258 | then every kept character is on its original line |
| `SourceNoise.QuotedBreakIsSwallowed` | tools/size-gate.py:317-320 | a literal with a line break loses it |
| `SourceNoise.SkipComment` | tools/size-gate.py:273-285 | the depth loop ends where the nested comment does and keeps its newlines |
| `SourceNoise.SkipString` | tools/size-gate.py:286-296 | the string loop ends where the string does and keeps its newlines, escaped ones too |
| `SourceNoise.SkipRaw` | tools/size-gate.py:298-305 | the search ends at the first quote with enough hashes, or the end, and keeps the newlines |
| `SourceNoise.NextToken` | tools/size-gate.py:268-326 | one turn of the main loop consumes one token and leaves what the token should |
| `SourceNoise.StripNoise` | tools/size-gate.py:257-327 | the loop computes the stripped text |
| `SourcePieces.CommentOver` | tools/size-gate.py:273-285 | the text of a nested comment, at any depth, leaves the depth as it was |
| `SourcePieces.RawEnds` | tools/size-gate.py:298-305 | a raw string ends at its own closer, not at shorter ones inside |
| `SourcePieces.StringEnds` | tools/size-gate.py:286-296 | a string ends at its own quote, escaped quotes inside notwithstanding |
| `SourcePieces.CodeToken` | tools/size-gate.py:268-326 | a character is kept as code if and only if, with what follows, it starts no comment, string or character literal; `break`, `r#type` and lifetimes are code |
| `SourcePieces.EscapedChrToken` | tools/size-gate.py:318 | a character literal that starts with a backslash is dropped whole if and only if it holds no quote of its own |
| `SourcePieces.EscapedQuoteSplits` | tools/size-gate.py:317-323 | the literal of a quote is cut at the quote it escapes; its closing quote is kept as code exactly when it starts nothing |
| `SourcePieces.QuoteLiteralLeavesAQuote` | tools/size-gate.py:318 | that literal alone leaves a stray quote |
| `SourcePieces.QuoteLiteralSwallowsABrace` | tools/size-gate.py:318 | in front of a comma and the literal of a double quote it takes a closing brace away |
| `SourcePieces.ReversedPrefixLeaks` | tools/size-gate.py:297-307 | the text of a string with the reversed prefix is kept as code |
| `SourcePieces.PieceToken` | tools/size-gate.py:268-326 | every piece of source is recognised whole, as the kind of piece it is |
| `SourcePieces.StripsPieces` | tools/size-gate.py:257-264 | for every source written as pieces, no escaped literal holding a quote: code is kept, character literals go, comments and strings of all kinds leave their line breaks only |
| `TestMask.FindItemEnd` | tools/size-gate.py:349-363 | the inner loop finds where the item ends, or that it does not |
| `TestMask.TestLineMask` | tools/size-gate.py:330-370 | the array filled by the nested loops is the specified mask |
| `TestMask.CfgTestIff` | tools/size-gate.py:241 | an attribute line is white space, `#[cfg(test)]`, and anything |
| `TestMask.NetCounts` | tools/size-gate.py:352 | the balance of a line is its opening braces less its closing ones |
| `TestMask.BracelessEnds` | tools/size-gate.py:358-362 | an item without a block ends at its own semicolon |
| `TestMask.BracedEnds` | tools/size-gate.py:352-357 | an item with a block ends at the line that balances it |
| `TestMask.EndsWithItem` | tools/size-gate.py:349-363 | the scan from an item's first line ends at its last if and only if the item has no block and its only semicolon is there, or has one, no semicolon before it, that balances there and not sooner |
| `TestMask.MaskedUpTo` | tools/size-gate.py:358-367 | the front of an item that closes is masked, whatever the item was, and nothing after it |
| `TestMask.ArrayParameterEndsItem` | tools/size-gate.py:331 | of a test function whose parameter list holds an array type, the lines after that parameter are not masked |
| `TestMask.RunsOn` | tools/size-gate.py:331-343 | when the scan does not end inside a test item, the first line of the production item behind it is masked exactly when the scan ends anywhere |
| `TestMask.FieldMasksFunction` | tools/size-gate.py:331-343 | of a test-only field in front of the end of its structure, all but the last line of the function behind the structure is masked |
| `TestMask.StopsAtItem` | tools/size-gate.py:345-370 | marked lines that stop in front of an attribute, an unmarked line or the end stop where an item does |
| `TestMask.MaskIsExactIff` | tools/size-gate.py:330-344 | for sources whose items hold one attribute each if test code, none otherwise: the mask is right if and only if the test items can be cut into groups of neighbours that each close as one item |
| `TestMask.GroupedApart` | tools/size-gate.py:330-344 | when a test item that does not close has no test item behind it, that is if and only if every test item closes |
| `TestMask.MaskIsExact` | tools/size-gate.py:330-344 | for every source laid out as items: true on exactly the lines of the test items, never on a following one |
| `OutputMatch.Claim` | bench/capability-corpus/roundtrip.py:350-355 | the first unclaimed entry that passes is claimed and no other changes; with none, nothing does |
| `OutputMatch.PathOkIff` | bench/capability-corpus/roundtrip.py:314-330 | where an entry must be, on the fields of the expectation: the names for the probed kind of volume decide if there are any, else those for "any" volume, else the alternatives, else the one path, else no place; a name may differ by normalisation, and by case where the volume ignores it |
| `OutputMatch.Pass` | bench/capability-corpus/roundtrip.py:359-397 | one loop: the greedy claims in order, only of unclaimed acceptable entries, one for each expectation; whoever is left had nothing to claim; problems exactly for wrong bytes |
| `OutputMatch.MatchNamed` | bench/capability-corpus/roundtrip.py:359-387 | the three loops keep claims one to one at acceptable paths, strongest evidence first: whoever settled for less than its own spelling found every better entry with an owner as good; unresolved are exactly those that hold nothing, and no unclaimed entry is at a path acceptable to them |
| `OutputMatch.UnresolvedCounts` | bench/capability-corpus/roundtrip.py:359-387 | when any two named expectations accept the same entries or none in common, an unresolved one means fewer entries at its paths than expectations that accept them |
| `OutputMatch.NamedIsComplete` | bench/capability-corpus/roundtrip.py:359-387 | then all are resolved if and only if some assignment resolves them |
| `OutputMatch.SilentIffMet` | bench/capability-corpus/roundtrip.py:337-406 | when each named expectation accepts at most one entry: no problem if and only if some assignment gives every expectation an entry of its own with right path and bytes |
| `OutputMatch.NamedClaimCanMiss` | bench/capability-corpus/roundtrip.py:359-387 | without that a named expectation goes missing although an assignment exists |
| `OutputMatch.MatchExpected` | bench/capability-corpus/roundtrip.py:337-406 | claims one to one at acceptable paths, named expectations first and in list order; no problem if and only if every expectation holds a regular file of its size and hash at its place, and then some assignment meets everything; path-free expectations all met if and only if some assignment of what the named ones left meets them; where no named expectation accepts two entries, no problem if and only if some assignment meets everything |
| `OutputMatch.LeftoverCounts` | bench/capability-corpus/roundtrip.py:388-397 | a path-free expectation left over means fewer unclaimed entries of its content than expectations that want it |
| `OutputMatch.GreedyIsComplete` | bench/capability-corpus/roundtrip.py:388-397 | the greedy loop meets all path-free expectations if and only if some assignment does |
| `OutputMatch.ClosedWorld` | bench/capability-corpus/roundtrip.py:433-445 | silent exactly when off, or every unclaimed entry and empty directory matches an allowed pattern |
| `OutputMatch.AllowedByBase` | bench/capability-corpus/roundtrip.py:433-445 | a pattern may match the whole path or what is behind its last separator |
| `OutputMatch.Grade` | bench/capability-corpus/roundtrip.py:624-635 | both arms silent if and only if every expectation holds a file with its bytes at its place and every other entry and empty directory is allowed |
| `PngFilter.PredictCausal` | packaging/icon/rasterize.py:58-72 | a prediction depends on nothing at or after its byte, so it can be undone in place |
| `PngFilter.PaethIsNearest` | packaging/icon/rasterize.py:65-71 | the fourth predictor is one of left, above and corner, none is nearer to left + above - corner, and ties go to left, then above |
| `PngFilter.FilteredByte` | packaging/icon/rasterize.py:58-72 | what a stored byte is for each kind, on the row and the one above, zero at the left edge |
| `PngFilter.FilterInjective` | packaging/icon/rasterize.py:58-72 | the filtered row, with the row above, determines the row |
| `PngFilter.UnfilterRow` | packaging/icon/rasterize.py:58-72 | the loop leaves the row whose filtered form the line held, byte by byte as each of the five kinds says and at the edges; on a line cut short it raises exactly when the filter rewrites or more than one pixel is missing |
| `PngFilter.ReadRows` | packaging/icon/rasterize.py:52-75 | the rows read re-encode to the stream; it raises exactly on a stream that is too short, unless only an unfiltered last row lacks up to one pixel, which is then read short |
| `PngFilter.EmptyRowIsRead` | packaging/icon/rasterize.py:56 | a pixel of four bytes is read from a stream of one zero byte, as an empty row |
| `PngFilter.EncodeInjective` | packaging/icon/rasterize.py:50-75 | an encoded image determines its rows and filters |
| `PngFilter.ReadImage` | packaging/icon/rasterize.py:50-75 | for every image and choice of filters the reader returns the original rows |
| `AlphaRecovery.Difference` | packaging/icon/rasterize.py:116-120 | the two renders of a channel differ by exactly what shines through, rounding or not |
| `AlphaRecovery.RawAlphaIsMean` | packaging/icon/rasterize.py:116-121 | when the channels disagree by rounding, the coverage is the whole number nearest to the mean of the three estimates |
| `AlphaRecovery.PixelIsRecovered` | packaging/icon/rasterize.py:113-125 | alpha comes back exactly, no clamp fires, the pixel composites to the rendered bytes, colour is within 255/(2A) + 1/2 |
| `AlphaRecovery.RecoverOne` | packaging/icon/rasterize.py:118-125 | the in-place loops write that pixel and no other |
| `AlphaRecovery.RecoverPixels` | packaging/icon/rasterize.py:113-125 | every pixel of the output is the recovered one, each buffer with its own channel count |
| `GapRecovery.LongestRun` | bench/component/par2-gap-recovery.py:122-127 | the loop's result is the length of a run and no run is longer |
| `GapRecovery.SelectKills` | bench/component/par2-gap-recovery.py:107-117 | for every draw of targets kills are close enough that no stretch without one is `hi` - 1 long, and few enough: kills times `lo` is at most the number of exponents |
| `GapRecovery.Survivors` | bench/component/par2-gap-recovery.py:119 | the survivors are exactly the exponents not killed, in order |
| `GapRecovery.RunIsStretch` | bench/component/par2-gap-recovery.py:122-127 | consecutive survivors stand side by side in the sorted list with no kill between |
| `GapRecovery.PickedSplits` | bench/component/par2-gap-recovery.py:112-119 | kills and survivors partition the exponents |
| `GapRecovery.ThinOut` | bench/component/par2-gap-recovery.py:106-134 | with the 60 and 95 per cent of the source: few are killed, the reported longest run is the true one, under the larger bound, and below `max_run` if and only if `max_run` is at least 1, so the refusal is out of reach |

## Left out

- CfgComments.NeverWrong: comments that hold a quote, a bracket or a comma are not covered; whether one misleads the gate depends on where it stands.
- AptIndex.Prune: the kept list and what is dropped; removing the files, the printing, and removals already done when a later group raises are not modelled.
- AptVersion.CutParts: digits and letters are ASCII, where Python's classes are Unicode; `int` on an epoch takes digits only, no sign, space or underscore.
- AlphaRecovery.PixelIsRecovered: division is exact, where the source divides floating-point numbers before rounding.
- Par2Patch.Editor.RenameFileDesc: names are compared as bytes; the replacement of malformed UTF-8 is not modelled.
- PeBuilder.BuildPe: names are NUL-free ASCII; `truncate_names` and other encodings are not modelled.
- OutputMatch.Grade: only the matching and closed-world arms; special files, containment, budgets, forbidden names, gaps and races are not modelled, and paths use `/` as separator.
- StallProxy.RunInv: one connection up to disconnect; a release pass is one step, so the shared counter does not move during it; response bytes and the `stalled` counter are not modelled; times are whole milliseconds.
- Fingerprint.Collect: the hexadecimal form of the digest and errors of the file system are not modelled.
- BackSubstitution.Solve: one word of every block; stage one with direct transforms, the network of the default being proved equal to them on functions (`MixedRadix`); stripes, threads, memory budgets, the joint arm, and sharing partial rows between columns of one residue are not modelled.
- Gapped recovery exponents (Gauss-Jordan), the product tree for the polynomial, and the split, nibble and vector forms of multiplication in `gf16.rs`.
- The SHA-256 compression function, MD5, zlib, Unicode normalisation, case folding and `fnmatch` are parameters.
- Regular expressions are modelled by the fixed matches they make: `OpAt`, `AttrOpen`, `ARTICLE_CMD`, the raw, byte and character prefixes, and `CFG_TEST`.
- Raw strings as option values inside cfg predicates, `test_only_modules` and the reports of the gates.
- `functions` and the limits of `tools/size-gate.py`: regular expressions and tables.
- The entry edits of `par2-ifsc-surgery.py`, and the byte flips and per-file grouping of `par2-gap-recovery.py` after the selection.
- `mingw_imports` and `_check_file`: a filter and a wrapper.
- PNG chunk parsing, `write_rgba` and rendering: file format plumbing and an external program.
- Sockets, files, clocks, thread start-up and printing.
