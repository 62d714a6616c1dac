# Verification of ProtocolCanary-Fixtures

Dafny models of the parts of ProtocolCanary-Fixtures where a small mistake would be expensive, with proofs of what
they promise. `dafny verify dfyconfig.toml` checks everything.

| files | subject |
|---|---|
| `Bytes.dfy` | bytes, optional results, big-endian integers, decimal numerals |
| `ScVal.dfy`, `ScValScalars.dfy`, `ScValCodec.dfy`, `ScValTheorems.dfy` | the ScVal XDR format as functions, and what decoding and encoding mean to each other |
| `ScValText.dfy`, `ScValLayout.dfy` | what well-formed UTF-8 is; where every number and byte of an encoding goes |
| `ScValReader.dfy`, `ScValWriter.dfy` | the cursor and the writer as classes, each method proved against the format |
| `AtomicWrite.dfy`, `AtomicWriteProgram.dfy` | atomic file replacement: all interleavings of all writers, and the program itself among other writers |
| `Strkey.dfy`, `CrcPolynomial.dfy`, `StrkeyText.dfy` | CRC16-XModem as a linear code and as a remainder of polynomials; base32 strkeys |
| `WideLiterals.dfy`, `IntegerWalk.dfy` | 128- and 256-bit literals; the explicit-stack walk over parsed TOML |
| `PackPaths.dfy`, `PackScan.dfy`, `PackPathRules.dfy` | path rules, path order, the directory scan; the rules said again by themselves |
| `PackRegistry.dfy`, `PackRegistryProofs.dfy`, `PackRegistryProgram.dfy` | the registry and its digest: specification, properties, program |
| `PackArchive.dfy`, `PackExtract.dfy`, `PackRoundTrip.dfy` | the archive's producer and consumer, and that they agree |
| `PackRelease.dfy`, `PackTheorems.dfy`, `PackExamples.dfy` | from a pack directory to a verified archive and its manifest, with small packs on which the tools do and do not agree |
| `LinkCheck.dfy` | the address policy and the redirect loop of the link checker |
| `TarWalk.dfy`, `EcmaPattern.dfy` | the tar block walk and stream comparison; the `$` translation of patterns |

How the model is set up:

* Loops and objects that the program updates are methods and classes; what they compute is a function or a predicate,
  and the results below are about those.
* An exception is `None`, a failing verdict, or a refusal. Where the program tells error kinds apart in its behaviour
  (an invalid archive from an unreadable one, the call a failed write reports) the model does too; message texts are
  not modelled.
* Text in an ScVal is kept as its UTF-8 bytes, and hexadecimal hashes as bytes. File names are strings.
* SHA-256, case folding, TOML parsing, the JSON encoding of a registry, DNS, HTTP servers, URL splitting and joining,
  and tar header fields are arbitrary given functions. Operating-system calls may fail at any time. Every result holds
  for all of these functions, unless it names what it needs of one.

Where the program and its documentation differ, the model follows the program:

* `tools/common/atomic_write.py:4-6` says that on any error the final path keeps its previous content and no temporary
  file is left behind. When closing the directory fails (or a call on it is interrupted) the error is raised with the new
  content in place: `AtomicWrite.ErrorAfterReplace`. When the temporary file cannot be unlinked it stays:
  `AtomicWrite.TmpLeftBehind`. `AtomicWrite.WriterOutcome` says exactly when each happens.
* The wide-integer check (`tools/validate/validate.py:1649`) raises `ValueError` instead of returning a problem for
  decimal literals of more than 4300 digits, Python's default limit: `WideLiterals.RaisesExactly` has the condition,
  `WideLiterals.LongOneRaises` a literal with the value 1 on which it happens.
* `check_link` (`tools/validate/check_source_links.py:655-656`) lets the `ValueError` of a redirect target that cannot
  be parsed escape: the `Raised` result of `LinkCheck.CheckLink`, which says exactly when;
  `LinkCheck.UnparsableRedirect` is such a run.
* `bool` payload words other than 1 decode to false (`tests/scval_xdr.py:694-700`), so decoding accepts several
  spellings of one value; `ScValTheorems.CanonicalForm` says which.
* On an archive that `verify_archive.py` accepts, `manifest.py` hashes the text the declared digest was computed from only
  if the archive holds no file beside the registry and the files it lists: the verifier hashes the files of the registry,
  the manifest tool all archived files (`PackTheorems.VerifierAndManifest`). `PackExamples.ExtraFile` is an archive on which they differ.
* Building and extracting is the identity except for packs that use the name of the registry themselves:
  `PackTheorems.BuildThenExtract` has the exact condition, which can be read off the pack's paths. `PackExamples.TakenName`
  and `PackExamples.FreeName` are packs on either side of it.

## Model

| member | source | states |
|---|---|---|
| ScValTheorems.RoundTrip | tests/scval_xdr.py:445-791 | for every encodable value of all 23 arms, any nesting and any following bytes, decoding the encoding gives the value back and stops exactly at the following bytes |
| ScValTheorems.AcceptsExactly | tests/scval_xdr.py:672-791 | a byte string decodes to a value if and only if the value is encodable and the bytes are its encoding up to bool words that are neither 0 nor 1 |
| ScValTheorems.CanonicalForm | tests/scval_xdr.py:694-700 | re-encoding accepted bytes keeps their length, changes only bool words that are neither 0 nor 1, gives the same bytes exactly when there are none, and decodes to the same value |
| ScValTheorems.SameValueSameWords | tests/scval_xdr.py:562-791 | two byte strings with one value agree on every word, up to how false is spelled |
| ScValTheorems.PrefixFree | tests/scval_xdr.py:445-558 | no encoding is a prefix of the encoding of a different value |
| ScValTheorems.NoPartialInput | tests/scval_xdr.py:168-207 | every strict prefix and every proper extension of an accepted byte string is rejected, under any depth limits |
| ScValTheorems.ExtensionRejected | tests/scval_xdr.py:778-791 | trailing bytes after a value are an error |
| ScValTheorems.DepthLimit | tests/scval_xdr.py:672-692 | decoding with a depth limit is decoding followed by a test of the value's vec and map nesting, absent and empty containers counting as one level |
| ScValTheorems.DepthFilter | tests/scval_xdr.py:744-761 | the same at every depth inside a value, remaining bytes included |
| ScValTheorems.LimitOnlyRejects | tests/scval_xdr.py:672-692 | a depth limit never changes a decoded value |
| ScValTheorems.CanonicalFixed | tests/scval_xdr.py:694-700 | a byte string is its own canonical form exactly when every bool word is 0 or 1 |
| ScValTheorems.EncodingIsSpelling | tests/scval_xdr.py:445-558 | the encoder writes only canonical bool words, and a whole number of four-byte words |
| ScValCodec.DecodeSound | tests/scval_xdr.py:672-775 | whatever the decoder takes from the front of its input is a spelling of the value it returns, which is encodable; nothing else is consumed |
| ScValCodec.DecodeComplete | tests/scval_xdr.py:672-775 | every spelling of an encodable value in front of any bytes is decoded to it |
| ScValCodec.Aligned | tests/scval_xdr.py:445-558 | every encoded value occupies a positive multiple of four bytes |
| ScValScalars.ScalarRead | tests/scval_xdr.py:251-442 | round trip of every arm that is not a container, in front of any bytes |
| ScValScalars.ScalarExact | tests/scval_xdr.py:562-743 | the bytes a scalar arm consumes are its canonical encoding, the bool arm excepted |
| ScValText.ValidTextExactly | tests/scval_xdr.py:732-743 | the text check accepts a byte string exactly when it is a concatenation of the UTF-8 encodings of code points from 0 to 0x10FFFF without the surrogates |
| ScValText.PointRecognised | tests/scval_xdr.py:732-743 | the encoding of a code point is recognised in front of anything, at its length |
| ScValText.RecognisedIsPoint | tests/scval_xdr.py:732-743 | whatever is recognised is the encoding of a code point |
| ScValLayout.TextVector | tests/vectors/scval_parity/scval_parity.json:214-218 | the vector with the text "héllo" is encoded to its listed bytes and decoded from them |
| ScValLayout.Discriminants | tests/scval_xdr.py:62-146 | every encoding begins with the number of its kind in the protocol's list |
| ScValLayout.WordDigits | tests/scval_xdr.py:216-220 | a word is four base-256 digits, the highest first |
| ScValLayout.HyperWords | tests/scval_xdr.py:222-226 | a 64-bit number is two words, the high one first |
| ScValLayout.Wide128 | tests/scval_xdr.py:251-261 | the 16 bytes of a 128-bit value, read as one big-endian number, are the value modulo 2^128 |
| ScValLayout.Wide256 | tests/scval_xdr.py:264-274 | the same of the 32 bytes of a 256-bit value |
| ScValLayout.OpaqueLayout | tests/scval_xdr.py:231-234 | opaque data is its length, its bytes and up to three zeros; symbols have at most 32 bytes |
| ScValLayout.ContainerLayout | tests/scval_xdr.py:534-559 | a container is a presence flag, a count and its parts in order |
| ScValLayout.AddressLayout | tests/scval_xdr.py:277-308 | the numbers and fields of the three address kinds |
| ScValLayout.ExecutableLayout | tests/scval_xdr.py:367-423 | the numbers and fields of executables and instances |
| ScValLayout.ErrorNumbers | tests/scval_xdr.py:322-364 | the numbers of the error kinds and where the code is |
| ScValReader.Reader.TakeBytes | tests/scval_xdr.py:168-175 | the cursor never passes the end, and fails without moving |
| ScValReader.Reader.OpaqueVar | tests/scval_xdr.py:189-207 | lengths are checked against the limit and the bytes left, padding must be zero |
| ScValReader.Reader.NextScalar | tests/scval_xdr.py:694-743 | the cursor code of the scalar arms reads what the format says |
| ScValReader.Reader.NextScVal | tests/scval_xdr.py:672-775 | the recursive cursor code reads what the format says, moves the cursor to the rest, and makes no more activations than words consumed |
| ScValReader.Reader.NextItems | tests/scval_xdr.py:744-751 | the vec loop decodes exactly the claimed number of items in order |
| ScValReader.Reader.NextEntries | tests/scval_xdr.py:752-761 | the map loop decodes keys and values in order |
| ScValReader.DecodeBytes | tests/scval_xdr.py:778-791 | `decode` is the format's decoder, and on every input, accepted or not, the decoder is entered at most one time more than the input has words, whatever counts it claims |
| ScValWriter.Writer.OpaqueVar | tests/scval_xdr.py:231-234 | length, bytes and zero padding are appended, or the value is refused when its length does not fit a word |
| ScValWriter.Writer.PutU128 | tests/scval_xdr.py:251-254 | accepts exactly the unsigned 128-bit range and appends the two limbs |
| ScValWriter.Writer.PutI128 | tests/scval_xdr.py:257-261 | accepts exactly the signed 128-bit range; the sign stays in the high limb |
| ScValWriter.Writer.PutU256 | tests/scval_xdr.py:264-267 | accepts exactly the unsigned 256-bit range and appends the four limbs |
| ScValWriter.Writer.PutI256 | tests/scval_xdr.py:270-274 | accepts exactly the signed 256-bit range and appends the four limbs |
| ScValWriter.Writer.PutAddress | tests/scval_xdr.py:277-308 | the three address kinds, keys of exactly 32 bytes |
| ScValWriter.Writer.PutError | tests/scval_xdr.py:322-364 | the error arms with their codes and ranges |
| ScValWriter.Writer.PutExecutable | tests/scval_xdr.py:367-398 | the three executables |
| ScValWriter.Writer.PutInstance | tests/scval_xdr.py:401-423 | an instance with its storage as an optional executable |
| ScValWriter.Writer.PutNonceKey | tests/scval_xdr.py:426-442 | a nonce key |
| ScValWriter.EncodeValue | tests/scval_xdr.py:445-531 | `encode` succeeds exactly on encodable values and writes the canonical bytes |
| ScValWriter.EncodeVecBody | tests/scval_xdr.py:543-548 | a vec body is its count and its items' encodings in order |
| ScValWriter.EncodeMapBody | tests/scval_xdr.py:551-559 | a map body is its count and its entries' encodings in order |
| AtomicWrite.NeverTruncated | tools/common/atomic_write.py:18-93 | for any number of writers with distinct temporary names, at every point of every interleaving of system calls with short writes and failures, a name that is not temporary holds its first content or the complete data of the last writer that replaced it |
| AtomicWrite.WriterOutcome | tools/common/atomic_write.py:53-93 | a writer that returned replaced its target exactly once and left no temporary file; one that raised replaced it exactly when the failing call was on the directory, and its temporary file, once opened, is left behind exactly when it was neither renamed nor unlinked |
| AtomicWrite.TmpLeftBehind | tools/common/atomic_write.py:4-6 | the documented guarantee is false: for every job and directory there is a run that raises, keeps the target and leaves the temporary file |
| AtomicWrite.OnlyReplacePublishes | tools/common/atomic_write.py:75-77 | no step but `os.replace` changes what a reader of any non-temporary name sees, and that one publishes the complete data |
| AtomicWrite.FlushedBeforeReplace | tools/common/atomic_write.py:62-77 | in every schedule, a writer that replaced its target had made an fsync that succeeded while its temporary file held the complete data |
| AtomicWrite.RunKeeps | tools/common/atomic_write.py:53-112 | the inductive invariant over all schedules: no shared files, every writer's temporary file holds what it wrote, the log of replaces explains every name |
| AtomicWrite.StepKeeps | tools/common/atomic_write.py:53-112 | one system call of one writer keeps that writer's part of it and touches no other name |
| AtomicWrite.ErrorAfterReplace | tools/common/atomic_write.py:4-6 | the documented guarantee is false: for every job and directory there is a run that raises with the new content in place |
| AtomicWrite.TmpNameInjective | tools/common/atomic_write.py:115-126 | temporary names of different targets, or of different suffixes, differ |
| AtomicWrite.OneTargetSeparate | tools/common/atomic_write.py:115-126 | writers of one target are kept apart by their random suffixes alone |
| AtomicWrite.SharedTmpNameTruncates | tools/common/atomic_write.py:118-121 | why the suffix is needed: with one temporary name, two writers can publish an empty file |
| AtomicWriteProgram.System.WriteAll | tools/common/atomic_write.py:62-73 | the short-write loop, fsync and close take exactly the machine's steps, whatever other writers do between them, and report the call that failed last |
| AtomicWriteProgram.System.FsyncDirectory | tools/common/atomic_write.py:96-112 | errors of opening and syncing the directory are ignored, those of closing it are raised |
| AtomicWriteProgram.System.WriteBytesAtomic | tools/common/atomic_write.py:18-93 | among any other writers that make any calls in between: returning means the complete data was put in place and the temporary file is gone; raising means it was put in place exactly when the call was on the directory, and the temporary file is left exactly when it was opened and neither renamed nor unlinked; a target of its own holds the new data or what it held before |
| Strkey.Crc16Xmodem | tools/validate/validate.py:1933-1943 | the nested loops compute the CRC |
| Strkey.CrcLinear | tools/validate/validate.py:1933-1943 | the CRC is linear over XOR of inputs of equal length |
| Strkey.BurstDetected | tools/validate/validate.py:1933-1943 | two inputs of equal length that differ only within two adjacent bytes have different CRCs |
| Strkey.Residue | tools/validate/validate.py:1933-1943 | appending two bytes gives CRC zero exactly when they are the CRC in big-endian order |
| CrcPolynomial.CrcDivides | tools/validate/validate.py:1933-1943 | over the polynomials with coefficients modulo 2, the data shifted by 16 bits is a multiple of x^16 + x^12 + x^5 + 1 plus the CRC, whose degree is below 16 |
| StrkeyText.AlphabetOrder | tools/validate/validate.py:1930 | the value of a letter is its place in A to Z, 2 to 7 |
| StrkeyText.GroupsInOrder | tools/validate/validate.py:1975-1981 | each eight letters are the next five bytes as one number of 40 bits, the highest digit first |
| StrkeyText.LowByteFirst | tools/validate/validate.py:1986-1988 | the stored checksum has its low byte first |
| StrkeyText.SpellRaw | tools/validate/validate.py:1975-1981 | base32 text of 56 characters is determined by the 35 bytes it decodes to |
| StrkeyText.RawSpell | tools/validate/validate.py:1975-1981 | every 35 bytes have a base32 text that decodes to them |
| StrkeyText.AcceptedExactly | tools/validate/validate.py:1946-1991 | a strkey is accepted with a payload exactly when it spells an allowed version byte, that payload and its little-endian CRC |
| StrkeyText.OneSpelling | tools/validate/validate.py:1946-1991 | at most one string is accepted per version byte and payload |
| StrkeyText.OneCharacterRejected | tools/validate/validate.py:1946-1991 | changing any one character of an accepted strkey gives a rejected string, also across the boundary of payload and checksum |
| WideLiterals.LiteralIsParsed | tools/validate/validate.py:1632-1649 | the stripping of sign and prefix finds exactly the texts that are a sign, a prefix and at least one digit, without ambiguity |
| WideLiterals.AcceptedExactly | tools/validate/validate.py:1620-1658 | accepted are exactly the literals in range, without a minus sign for unsigned kinds and not beyond 4300 decimal digits |
| WideLiterals.RejectedExactly | tools/validate/validate.py:1643-1658 | which problem is reported, exactly: no literal, a minus sign on an unsigned kind, below the minimum, above the maximum |
| WideLiterals.CaseInsensitive | tools/validate/validate.py:1639-1649 | the verdict does not change when letters change case, in the digits or in the prefix |
| WideLiterals.DigitTable | tools/validate/validate.py:1642-1649 | which characters are digits in either radix, and their values |
| WideLiterals.DecimalReads | tools/validate/validate.py:1649 | the decimal numeral of a number reads as that number |
| WideLiterals.DecimalAccepted | tools/validate/validate.py:1620-1658 | every value in range is accepted as its decimal numeral |
| WideLiterals.RaisesExactly | tools/validate/validate.py:1649 | the conversion raises exactly on decimal literals of more than 4300 digits |
| WideLiterals.LongOneRaises | tools/validate/validate.py:1649 | it does so on a literal whose value is 1, for every kind |
| WideLiterals.EveryValueHasALiteral | tools/validate/validate.py:1612-1658 | every value in range has an accepted literal |
| WideLiterals.AcceptedSurvivesTheWire | tests/scval_xdr.py:251-274 | every accepted value is encodable, in 64-bit limbs that decode back to it |
| WideLiterals.EveryLimbsHaveALiteral | tests/scval_xdr.py:711-729 | every tuple of limbs decodes to an in-range value with an accepted literal, and encodes to the same limbs |
| IntegerWalk.IntegerValues | tools/validate/validate.py:787-805 | the explicit-stack walk terminates and yields exactly the integers of the recursive definition with their key paths, booleans excluded |
| IntegerWalk.LeavesExactly | tools/validate/validate.py:787-805 | a path and a value are found exactly when the document has that integer at the position the path writes out, keys joined by dots and indexes in brackets |
| IntegerWalk.DocumentedPath | tools/validate/validate.py:793 | the documented form `assert[0].min` |
| IntegerWalk.RangeIsSigned64 | tools/validate/validate.py:783-784 | the range is that of signed numbers of eight bytes |
| IntegerWalk.ReportOutOfRange | tools/validate/validate.py:823-845 | true exactly when some integer is outside the signed 64-bit range; exactly those are reported, each as often as it occurs |
| PackPaths.MemberPathAgrees | tools/pack/verify_archive.py:119-141 | the consumer's path check accepts exactly the paths the producer's does |
| PackPaths.ParentsValid | tools/registry/generate.py:130-158 | directories above a valid path are valid paths |
| PackPaths.ParentsAreParts | tools/pack/pack.py:160-167 | every directory above a path is a join of leading parts of the split path |
| PackPaths.PartsAreParents | tools/pack/pack.py:160-167 | every such join, short of the whole path, is a directory above it |
| PackPaths.SortedUnique | tools/registry/generate.py:261-262 | names have one order, so sorting does not depend on the order of the input |
| PackPaths.Sort | tools/registry/generate.py:404-409 | sorting by code points gives the strictly sorted sequence of a set |
| PackPathRules.ValidExactly | tools/registry/generate.py:130-158 | a path is valid exactly when it has one to eight parts, each nonempty, not ending in a dot or space, no reserved name, without forbidden or control characters |
| PackPathRules.ReservedExactly | tools/validate/portable_names.py:50-59 | a part is reserved exactly when it is a device name in any case, spaces, and nothing more or a dot and anything |
| PackPathRules.Utf8Order | tools/registry/generate.py:261-262 | the order of paths is the order of their UTF-8 encodings as byte strings |
| PackPathRules.VisibleExactly | tools/registry/generate.py:206-207 | the scan passes over exactly the entries with a part `.git` |
| PackScan.AcceptableMonotone | tools/registry/generate.py:189-241 | whatever refuses some entries of a pack refuses every larger set, so the scan may stop at the first problem |
| PackScan.AcceptOne | tools/registry/generate.py:206-241 | the conditions on one more entry, with the limits in numbers |
| PackScan.ScanEntry | tools/registry/generate.py:206-241 | the checks of one entry against the tables decide whether the entries seen so far are acceptable together |
| PackScan.ScanDirectory | tools/registry/generate.py:203-226 | one directory, listed in any order |
| PackScan.ScanPack | tools/registry/generate.py:189-241 | whatever order directories are listed in, the scan returns exactly the regular files outside `.git`, and does so exactly when no link, special file, bad path, case-fold collision or limit breach is among the visible entries |
| PackRegistryProofs.RegistryHolds | tools/registry/generate.py:265-401 | fixtures strictly sorted by unique id, every fixture of the pack and no other; the files they name are exactly those that belong to the pack, each present with the hash of its bytes |
| PackRegistryProofs.RegistryCarries | tools/registry/generate.py:384-401 | the registry has every fixture's entry and the protocol they all declare, and the digest over the hashes and sizes of exactly the files that belong to the pack |
| PackRegistryProofs.ReadExactly | tools/registry/generate.py:304-381 | a fixture can be read exactly when it parses, its fields are of the required kinds, and each payload field is a plain relative path that leads, from the directory of the fixture, to a file of the pack |
| PackRegistryProofs.FixtureNames | tools/registry/generate.py:285 | the fixtures are the files whose names end in `.toml` |
| PackRegistryProofs.ContributionHolds | tools/registry/generate.py:317-382 | an entry repeats the fields of its fixture and names its own file and payloads that exist, with their hashes; the payloads are exactly the files the two fields name relative to the directory of the fixture |
| PackRegistryProofs.DependsOnMembersOnly | tools/registry/generate.py:16-19 | files outside the pack never affect the registry |
| PackRegistryProofs.ReadNeedsPayloads | tools/registry/generate.py:351-355 | a fixture whose payload is missing makes the pack invalid |
| PackRegistryProofs.LineInjective | tools/registry/generate.py:404-409 | a line of the digest text determines path, hash and size, by the rules for control characters in paths |
| PackRegistryProofs.DigestTextInjective | tools/registry/generate.py:404-409 | two sets of pack files have one digest text exactly when they are equal |
| PackRegistryProofs.DigestTextEmpty | tools/registry/generate.py:404-409 | the digest text of no file is the header line |
| PackRegistryProofs.DigestTextGrows | tools/registry/generate.py:404-409 | a file whose path comes last adds its hash, size and path as the last line |
| PackRegistryProgram.CollectFixture | tools/registry/generate.py:304-382 | one turn of the loop keeps the tables and stops only when the pack is invalid |
| PackRegistryProgram.BuildRegistryFrom | tools/registry/generate.py:286-401 | with the default options, the loop over sorted paths computes the registry the specification gives, which does not mention order |
| PackRegistryProgram.BuildRegistryWith | tools/registry/generate.py:265-401 | the options can refuse a registry or allow one without fixtures, exactly as stated, but never change one |
| PackRegistryProgram.DigestOf | tools/registry/generate.py:404-409 | the digest of the derived records |
| PackArchive.DirectoryList | tools/pack/pack.py:160-167 | every directory above a path, once, in order |
| PackArchive.CheckLimits | tools/pack/pack.py:170-189 | exactly the limits on entries, file size, depth and total |
| PackArchive.RenderArchive | tools/pack/pack.py:603-624 | one entry per member and directory in path order, or a refusal exactly at the limits |
| PackArchive.RenderedExactly | tools/pack/pack.py:170-189 | the limits in numbers, and kind, mode and data of every entry |
| PackArchive.DirectoriesFirst | tools/pack/pack.py:603-624 | every directory comes before what is inside it |
| PackExtract.PrefixExtractable | tools/pack/verify_archive.py:144-210 | a prefix of an extractable stream is extractable |
| PackExtract.AdmitOne | tools/pack/verify_archive.py:160-196 | the conditions on a stream, one entry at a time |
| PackExtract.EntryExactly | tools/pack/verify_archive.py:160-196 | a valid entry is a directory or a file of at most 1 MiB under a valid path, with none of the setuid, setgid and sticky bits |
| PackExtract.ChecksDecide | tools/pack/verify_archive.py:160-196 | the checks against the extractor's tables decide those conditions |
| PackExtract.FileDecides | tools/pack/verify_archive.py:200-203 | creating a file fails exactly when something is in its way, and does not change the destination then |
| PackExtract.DirectoryDecides | tools/pack/verify_archive.py:185-187 | the same of creating a directory |
| PackExtract.ExtractMember | tools/pack/verify_archive.py:160-205 | one turn of the loop: it goes on exactly when the stream so far is extractable, and otherwise leaves no more than an empty file |
| PackExtract.LeftoverExtractable | tools/pack/verify_archive.py:200-209 | what an entry with unreadable data leaves is the tree of an extractable stream too |
| PackExtract.ExtractSafely | tools/pack/verify_archive.py:144-210 | success exactly on complete extractable streams, with the number of files written; on every run, failed ones included, the destination is the tree of an extractable stream: what the longest extractable prefix puts there and at most one empty file more |
| PackRoundTrip.ExtractionIsSafe | tools/pack/verify_archive.py:144-150 | what extraction leaves: only valid paths, a well-formed tree, every file once with the bytes of its entry, at most 2000 entries, 1 MiB a file and 16 MiB in all, names distinct after case folding |
| PackRoundTrip.InsideDestination | tools/pack/verify_archive.py:184 | a valid path leads strictly inside the destination, at most eight levels down |
| PackRoundTrip.FilesHold | tools/pack/verify_archive.py:188-205 | the files of a stream without repeated names are its file entries with their bytes, and the sizes add up |
| PackRoundTrip.ExtractsBack | tools/pack/pack.py:603-624 | the consumer extracts the producer's archive exactly when the members are valid, distinct when folded and no file is where a directory is needed; the destination then holds the members and their directories and nothing else |
| PackRelease.CollectMembers | tools/pack/pack.py:135-157 | the members are the files the registry names and the rendered registry itself; it stops exactly when scan, registry or schema refuse |
| PackRelease.VerifyExtracted | tools/pack/verify_archive.py:213-266 | it reports nothing exactly when the tree is the pack its own registry describes and the fixture validator has nothing to say |
| PackRelease.InspectArchive | tools/release/manifest.py:110-136 | counts, bytes and files of a complete stream of files and directories under the read cap |
| PackRelease.DigestOfFiles | tools/release/manifest.py:101-107 | the digest over raw file bytes is the digest over the derived records |
| PackRelease.ManifestDigest | tools/release/manifest.py:204-211 | a digest is accepted exactly when the archived files other than the registry hash to it |
| PackTheorems.BuildThenExtract | tools/pack/verify_archive.py:237-257 | build then extract is the identity: the archive of a pack is extracted and verified if and only if no path or directory of the pack folds to `registry.json`; then members, registry and digest come back |
| PackTheorems.ScansBack | tools/pack/verify_archive.py:239-242 | the scan of the extracted tree succeeds and finds exactly the members |
| PackTheorems.MembersFit | tools/pack/pack.py:151-156 | the files of a scanned pack and its registry can be members together exactly when the name of the registry is free |
| PackTheorems.Rebuilt | tools/pack/verify_archive.py:237-242 | setting the registry aside gives the same registry again, or none when a payload had its name |
| PackTheorems.VerifierAndManifest | tools/release/manifest.py:204-211 | on a verified archive the two tools hash the same text exactly when it holds no file beside the pack and the registry, and then the manifest tool accepts it exactly when it reads the same digest from the registry as the verifier |
| PackExamples.ExtraFile | tools/release/manifest.py:204-211 | an archive that the verifier accepts and whose two texts differ |
| PackExamples.TakenName | tools/pack/pack.py:151-156 | a pack with a payload called `registry.json`: it is packed, but does not come back |
| PackExamples.FreeName | tools/pack/pack.py:151-156 | a pack that is packed and comes back |
| PackTheorems.PackManifest | tools/release/manifest.py:110-211 | the manifest of a pack's archive counts its names and bytes and finds the pack's own digest |
| PackTheorems.BuildArchive | tools/pack/pack.py:627-633 | an archive is made exactly for a directory that scans, has a registry, conforms and meets the limits |
| PackTheorems.VerifyArchive | tools/pack/verify_archive.py:269-295 | an archive is accepted exactly when its hash is the pinned one, the stream is complete and extractable, and the extracted tree passes the checks |
| LinkCheck.AddressPolicy.Addresses | tools/validate/check_source_links.py:161-181 | a literal is judged without a query; otherwise exactly one query is made, and its records come back without repetition, the first one first, or the failure they mean |
| LinkCheck.AddressPolicy.Authorize | tools/validate/check_source_links.py:183-196 | the first address is granted and pinned exactly when there is one and all answers of this query are allowed: one bad answer refuses the host |
| LinkCheck.AddressPolicy.ValidatedAddress | tools/validate/check_source_links.py:198-207 | a pinned host is dialled at its pinned address without a query, any other host is judged as above right before the dial |
| LinkCheck.Open | tools/validate/check_source_links.py:225-266 | exactly one request is sent, or none when the dialled host is refused; the dialled address is one of an answer for that host whose records were all allowed, and the one just authorized unless a proxy is dialled |
| LinkCheck.ApplyPolicy | tools/validate/check_source_links.py:576-605 | a URL may be requested exactly when it is complete and all answers for its host are allowed; what is refused, and why; the one query is for the host and the port of the URL, or 443 for https and 80 otherwise |
| LinkCheck.Hop | tools/validate/check_source_links.py:611-626 | one turn sends exactly one request, judged on an answer of this turn, or none |
| LinkCheck.NextUrl | tools/validate/check_source_links.py:648-677 | the result of every reply that is not followed, and the URL of one that is |
| LinkCheck.FollowLink | tools/validate/check_source_links.py:607-677 | for every server and DNS: everything sent is at most one request more than the redirect limit, no URL twice, each the redirect target of the one before, each host judged after the previous request, every dialled address from answers that were all allowed; and the result, in every case, also by the status of the last reply: inconclusive exactly on 429, which statuses are failures, and which failure a time-out, an unreachable or a broken server is |
| LinkCheck.CheckRpcService | tools/validate/check_source_links.py:406-508 | one request at most is sent, only to the root of an HTTPS origin on the default port, without query or fragment, whose host was asked for at port 443; the result in every case, by the status and the body of the reply |
| LinkCheck.CheckLink | tools/validate/check_source_links.py:523-677 | the bounds hold of everything sent on every path; under the strict policy every dialled address is routable; an error escapes exactly on an unparsable redirect of a page; a funding service is never requested; the result by the status of the last reply, for pages and services |
| LinkCheck.UnparsableRedirect | tools/validate/check_source_links.py:655-656 | a run in which an error escapes |
| TarWalk.TarMembers | tools/pack/archive_digests.py:163-179 | the regions of the members are aligned and tile an initial interval without gap or overlap, up to a zero block or a short rest |
| TarWalk.AdvancesExactly | tools/pack/archive_digests.py:172-178 | the walk moves forward exactly when the size field is more than -512 |
| TarWalk.OnePlace | tools/pack/archive_digests.py:182-195 | header, data and padding of the members are disjoint: one description fits an offset |
| TarWalk.MemberAtOffset | tools/pack/archive_digests.py:182-195 | the description given is that one |
| TarWalk.FirstDifference | tools/pack/archive_digests.py:198-206 | the least differing offset, none exactly when the streams are equal |
| TarWalk.CompareStreams | tools/pack/archive_digests.py:209-219 | the offset is that of the first difference, and the place described is the one that fits it |
| EcmaPattern.EcmaPatternOf | tools/validate/jsonschema_lite.py:82-122 | the scanner computes the translation of the token sequence |
| EcmaPattern.TranslatedByCharacter | tools/validate/jsonschema_lite.py:82-122 | the translation is that of a scan by single characters, which replaces a `$` exactly when it is neither escaped nor in a class |
| EcmaPattern.TranslatedTokens | tools/validate/jsonschema_lite.py:82-122 | the translation has the same tokens in the same order with exactly the anchors rewritten, contains no anchor, and is idempotent |
| EcmaPattern.UnchangedExactly | tools/validate/jsonschema_lite.py:82-122 | a pattern is left alone exactly when it has no anchor outside escapes and classes |
| EcmaPattern.Resplit | tools/validate/jsonschema_lite.py:82-122 | splitting the rewritten text again gives the rewritten tokens, from inside a class as well |

## Left out

- ScValTheorems.RoundTrip: does not model Python's recursion limit, which stops encoding and decoding of values nested about a thousand deep with RecursionError; bytes that are not the declared types (a value of another Python type) are refused before encoding and have no counterpart here.
- StrkeyText.AcceptedExactly: does not tell the reasons for a rejection apart; the expected version is one byte, as in all callers, and case is judged by the base32 alphabet, which has no lower-case letters.
- WideLiterals.AcceptedExactly: covers string values; a value of another type is refused before any of this.
- PackScan.ScanPack: takes the file system to stay the same during the scan, without I/O errors; names are Unicode strings, so a name that is not valid UTF-8 (which the scan refuses) cannot be represented.
- PackPaths.MemberPathAgrees: models `str.upper` on ASCII letters only, which is what the reserved device names consist of; full Unicode case mapping and category tables are not modelled beyond control characters.
- PackRegistryProgram.BuildRegistryWith: takes the pack name as the protocol number in it, if any, and is not used by `PackRelease`, since packing and verifying always build with the default options.
- PackExtract.ExtractSafely: models the destination as a tree on a case-sensitive file system, empty at first; I/O errors other than a path in the way or a damaged stream are not modelled.
- PackRelease.VerifyExtracted: takes the fixture validator, and the reading and schema check of the registry file, as given functions; `PackTheorems.BuildThenExtract` is about the other checks and asks that a rendered registry is read back with its digest.
- PackTheorems.VerifierAndManifest: compares digest texts; that different texts have different SHA-256 values is not provable.
- LinkCheck.FollowLink: takes DNS, proxies, servers, URL parsing and `is_global` as given functions; an error other than `OSError` from name resolution (a host name too long for IDNA) is not modelled.
- LinkCheck.CheckRpcService: takes the verdict on the JSON-RPC answer as a given function; error kinds while reading the body are a timeout or anything else.
- AtomicWrite.NeverTruncated: covers one directory, since writers in different directories share no names; durability after power loss, permissions, and asynchronous exceptions between two system calls are not modelled, nor is a descriptor number that another thread reuses between the two closes of a failed one.
- TarWalk.TarMembers: asks for size fields above -512 in the headers it comes to; below that the loop need not end.
- TarWalk.CompareStreams: the parsing of names and octal sizes in a header is a given function.
- EcmaPattern.EcmaPatternOf: is about the rewriting of text; what Python's `re` does with the result is not modelled.
- gzip and tar encoding: an archive is a list of entries with name, kind, mode and data, and a note on how the stream ends.
- The JSON form of ScVal (`to_json`, `from_json`) and the base64 wrappers: a second spelling of the same tree, one easy case an arm.
- The recheck that registry ids are sorted, after they have been sorted: `PackRegistryProofs.RegistryHolds` proves what it looks for.
- The release manifest's other fields, run records, the evidence gates for protocols 29 and 30, schema synchronisation and the per-field fixture checks: wide, but one branch deep.
- Command lines, reports, message texts, the catalogue, badges and changelog tooling.
