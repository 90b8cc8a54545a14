# KratosOS package manager and init: a verified model

KratosOS is a small Linux distribution. This project models the self-contained
algorithms of its package manager (`pkg/`) and of its init tools (`init/`) in
Dafny and proves what they are for. Code that changes things step by step is
modelled by classes and methods with loops, each proved against a specification
function; the theorems are about those functions and about runs of state
machines. `dafny verify dfyconfig.toml` checks everything.

| files | what they model |
|---|---|
| `JsonGrammar`, `JsonReader`, `JsonTheorems`, `JsonMeaning`, `JsonNumbers`, `JsonLimits`, `JsonPrinter`, `JsonParser` | the JSON parser against the grammar and the values of RFC 8259, a number automaton and a printer with tables of its own |
| `HashBytes`, `HashWords`, `Sha256`, `Sha512`, `Primes`, `HashTables`, `Sha256Example`, `Sha512Example` | SHA-256, the source's variant of SHA-512 against that of FIPS 180-4, the tables as roots of primes, the published digests |
| `Crypt`, `CryptScheme` | password hashing on top of SHA-512, and what the scheme's strings and characters are |
| `CStrings`, `FileSystem`, `TarPath`, `TarHeader`, `TarTree`, `TarExtract`, `TarForms`, `TarRoundTrip`, `TarContainment`, `TarManifest` | the ustar writer and reader on a file system whose links are followed, path and link checks, containment, the manifest walk against what is unpacked |
| `VersionTokens`, `DepsVersion`, `RepoVersion` | the two version comparators and when they agree |
| `Repo`, `RepoCache` | choosing among repositories, the upgrade pass, checked downloads, atomic index updates |
| `DepList`, `Resolve`, `PkgDb`, `PkgDbRuns` | dependency lists, recursive installation, the disk and the package database over runs |
| `Chunked` | the body decoder over leftover bytes and an arbitrarily fragmented socket |
| `Supervision` | PID 1 supervising the console shells, interleaved with signals and child exits |
| `Dhcp` | the option walk of a DHCP reply |

Bytes are integers below 256 (bit vectors in the hashes), C strings are byte
sequences without NUL, machine words are bounded explicitly. What the
environment decides (whether an install works, how much a read returns, which
child exits when, what a download delivers) is a parameter or a
nondeterministic step, and the theorems hold for every choice.

## Where the code does not do what it says

Where one of these is about a property, a lemma states exactly when the code
meets it, and a witness shows an input for which it does not.

- `kratos-json.h` promises that the text needs no NUL behind it, but
  `json_parse` compares `true`, `false` and `null` with `strncmp` and ignores
  the length it was given, so it accepts "tr" when "ue" follows in memory.
  Within its limits it decides the grammar of RFC 8259 on bytes exactly when no
  literal hangs over the end; a NUL behind the text is enough
  (`JsonTheorems.AcceptsExactlyJson`, `OverhangWitness`, `NulTerminatedExact`).
- It does not check that the text is UTF-8: a text it accepts is JSON exactly
  when no literal hangs over and the text is UTF-8
  (`JsonTheorems.AcceptsExactlyJson`, `JsonMeaning.NotUtf8Witness`).
- `sha512_transform` and `sha512_init` are not SHA-512: round constant 50 and
  the fifth initial word are wrong (`Sha512.TablesDiffer`). Of every message,
  or of that message padded, the digest is not the one of FIPS 180-4
  (`Sha512.DigestsPart`; the constant alone suffices, whatever the initial
  words: `OneConstantParts`). Stored hashes still verify their own passwords,
  but the text for a password is the one of SHA-512crypt only if two different
  hashes happen to agree on its stretched digest (`Crypt.TextsAgree`).
- Unpacking can leave the target directory: links are checked by counting the
  components of their names, but a name can run through an earlier link. After
  "x" -> "." and "x/y" -> "..", "y/e" is a file beside the directory
  (`TarContainment.EscapeWitness`). A hard link gives a checked link a second
  name at another depth (`CopiedLinkWitness`), and a backslash is a separator
  for the check but not for the kernel (`BackslashWitness`). No archive does so
  whose names and hard link sources run through no link, nor one none of whose
  link targets has a ".." (`ContainedAvoiding`, `ContainedDescending`); a
  single system call does exactly when the directory it reaches is outside and
  nothing makes the call fail (`FileSystem.CallsContained`).
- A raw byte of a string is taken for a code point, so raw UTF-8 is encoded a
  second time. A string is read as what it denotes exactly when its raw bytes
  are ASCII, and a document exactly when its text is (`JsonMeaning.StringKept`,
  `ValueRight`, `RawUtf8Witness`).
- `kratos_version_cmp` is not transitive: 1.a < 1 < 1.0 < 1.a. Three versions
  are ordered consistently exactly when they do not split three ways behind
  their common beginning (`DepsVersion.TransitiveExactly`, `CycleWitness`).
- The two comparators disagree on pre-release suffixes, and even on
  dotted-numeric versions once `strtol` clamps a component; the exact condition
  is `RepoVersion.DottedAgree`, witnesses are `PreReleaseWitness` and
  `MaskedWitness`.
- Rules on glibc and kpm count as met while these are not installed; installing
  one of them later can break an accepted rule (`DepList.InstallKeepsAllMet`,
  `LateBaseWitness`).
- `kratos-deps.h` speaks of comma or space separated lists; the code splits at
  commas and semicolons, and the model follows the code.
- The packer writes payloads the installer refuses or that do not match their
  manifest, without checking: an absolute link stops the whole unpacking, as
  does a name the path check refuses or a file of more than 512 MiB, and
  special files are listed but not packed. Payload and manifest match exactly
  when there is none of these (`TarManifest.ManifestMatches`,
  `AbsoluteLinkWitness`); that is for paths and targets of at most 99 bytes,
  longer paths are cut (`LongNameCut`).
- Directory modes are not restored: a directory comes back with mode 0755,
  made by the walk over its own name, unless that name fills the header field
  and has no room for the slash; of a file's mode the low nine bits survive,
  and mode 0 comes back as 0644 (`TarTree.DirMode`, `TarTree.ModeOr`,
  `TarRoundTrip.Rebuilds`).
- An install takes over files of another package without a word, and removing
  it deletes them, although the other manifest still lists them
  (`PkgDbRuns.CollisionDeletes`, `CollisionWitness`).
- An index update renames the signature before the index; cut off in between,
  or when one rename fails or no key is installed, the two files need not
  match (`RepoCache.InterruptedUpdateWitness`). They match exactly when
  `PairedExactly` says, and over every run whose updates performed both
  renames or neither (`WholeUpdatesPair`).
- A shutdown request is lost when another signal follows before the loop loads
  `caught_sig`, or when it arrives between the load and the clear: it is then
  never acted on (`Supervision.WipedIsLost`, `NoShutdownFollows`,
  `RequestLostWitness`). A signal is acted on exactly when it is the last one
  delivered at some load (`ActedOnExactly`).

## Model

| member | source | states |
|---|---|---|
| JsonParser.StringBuffer.Grow | pkg/kratos-json.c:136-171 | growing the buffer makes room for the bytes and a terminator and keeps the contents |
| JsonParser.StringBuffer.Append | pkg/kratos-json.c:136-171 | appending a code point appends exactly its UTF-8 encoding (section 3 of RFC 3629) |
| JsonParser.StringBuffer.Finish | pkg/kratos-json.c:201-308 | the caller gets the contents, with a terminator behind them |
| JsonParser.Parser.ParseHex4 | pkg/kratos-json.c:181-195 | four hexadecimal digits are taken and valued, anything else fails |
| JsonParser.Parser.ParseChar | pkg/kratos-json.c:201-308 | one raw byte, escape or surrogate pair is read as the reader function reads it |
| JsonParser.Parser.ParseStringRaw | pkg/kratos-json.c:201-308 | a string literal is read as the reader function reads it, cursor included |
| JsonParser.Parser.ParseNumber | pkg/kratos-json.c:314-370 | a number literal of at most 63 bytes is kept as its text, with the cursor behind it |
| JsonParser.Parser.ParseValue | pkg/kratos-json.c:513-546 | refines the reader function; depth is restored; terminates |
| JsonParser.Parser.ParseArray | pkg/kratos-json.c:388-440 | refines the reader function for arrays and the nesting limit |
| JsonParser.Parser.ParseElems | pkg/kratos-json.c:388-440 | the element loop refines the recursive reading of elements |
| JsonParser.Parser.ParseObject | pkg/kratos-json.c:442-511 | refines the reader function for objects and the nesting limit |
| JsonParser.Parser.ParseMembers | pkg/kratos-json.c:442-511 | the member loop refines the recursive reading of members |
| JsonParser.Parse | pkg/kratos-json.c:548-565 | returns what the reader function says: a value for every JSON text, and only for texts the grammar derives on bytes exactly when no literal hangs over the end |
| JsonParser.ObjectGet | pkg/kratos-json.c:581-590 | the first member with the key is returned, and none only if there is none |
| JsonTheorems.ReadStringSound | pkg/kratos-json.c:201-308 | every accepted string has a derivation in the grammar, whose reading is the result |
| JsonTheorems.ReadStringComplete | pkg/kratos-json.c:201-308 | every string of the grammar within the limits is accepted with its reading |
| JsonTheorems.NumberSound | pkg/kratos-json.c:314-370 | every accepted number is a number of the grammar |
| JsonTheorems.NumberComplete | pkg/kratos-json.c:314-370 | every number of the grammar is found whole |
| JsonTheorems.ReadValueSound | pkg/kratos-json.c:513-546 | every accepted value has a derivation, within the nesting limit, with the result as its reading |
| JsonTheorems.ReadValueComplete | pkg/kratos-json.c:513-546 | every derivation within the limits is accepted with its reading |
| JsonTheorems.ReadDocSound | pkg/kratos-json.c:548-565 | an accepted text without overhang is derived by the grammar on bytes with the result as its reading |
| JsonTheorems.ReadDocComplete | pkg/kratos-json.c:548-565 | whatever derivation of a text is taken, the parser returns its reading, in which each raw byte is a code point |
| JsonTheorems.OverhangEnd | pkg/kratos-json.c:527-542 | the cursor runs past the text exactly when a literal hangs over its end |
| JsonTheorems.AcceptsExactlyJson | pkg/kratos-json.c:548-565 | the parser decides the grammar on bytes exactly when no literal hangs over; it accepts every JSON text, and an accepted text is JSON exactly when no literal hangs over and it is UTF-8 |
| JsonTheorems.NulTerminatedExact | pkg/kratos-repo.c:172 | with a NUL behind the text, as the caller writes it, the JSON texts are exactly the accepted ones that are UTF-8 |
| JsonTheorems.OverhangWitness | pkg/kratos-json.c:527-542 | "tr" followed by "ue" in memory is accepted |
| JsonMeaning.Utf8Exactly | pkg/kratos-json.c:136-171 | a text passes the syntax of section 4 of RFC 3629 exactly when it encodes code points as section 3 says |
| JsonMeaning.StringKept | pkg/kratos-json.c:239-243 | a string, escapes and raw bytes mixed, is read as what it denotes exactly when its raw bytes are ASCII, and otherwise grows |
| JsonMeaning.TreeKept | pkg/kratos-json.c:513-546 | a value is read as what it denotes exactly when the raw bytes of all its strings and keys are ASCII |
| JsonMeaning.YieldAscii | pkg/kratos-json.c:201-308 | these are ASCII exactly when the text is |
| JsonMeaning.ValueRight | pkg/kratos-json.c:548-565 | the parser returns the value a text denotes exactly when the text is ASCII |
| JsonMeaning.RawUtf8Witness | pkg/kratos-json.c:239-243 | an accented letter in UTF-8 is JSON and is read as two other letters |
| JsonMeaning.NotUtf8Witness | pkg/kratos-json.c:239-243 | a quoted byte 255 is accepted although it is no JSON text |
| JsonPrinter.RoundTrip | pkg/kratos-json.c:548-565 | printing any document, each character plain, as a two-character escape or in hexadecimal digits of either case, with any blanks, and parsing it returns it, strings in UTF-8 |
| JsonPrinter.EveryString | pkg/kratos-json.c:201-308 | and every string the parser takes, raw bytes ASCII, can be printed so: there are no other escapes |
| JsonPrinter.BlankIsWs | pkg/kratos-json.c:76-84 | the white space skipped is exactly space, tab, line feed and carriage return |
| JsonNumbers.NumberExactly | pkg/kratos-json.c:314-370 | the numbers of the grammar are exactly what a ten-state automaton accepts |
| JsonLimits.NestedExactly | pkg/kratos-json.c:388-400 | brackets may nest 64 deep and no deeper |
| JsonLimits.LongNumberExactly | pkg/kratos-json.c:314-370 | a number may have 63 bytes and no more |
| JsonPrinter.Utf8Decodes | pkg/kratos-json.c:136-171 | the encoding decodes to the code point, continuation bytes included |
| JsonPrinter.Utf8Injective | pkg/kratos-json.c:136-171 | different strings have different UTF-8 encodings |
| Sha256.PadFillsBlocks | pkg/kratos-sha256.c:122-145 | padding fills whole blocks with the fewest zeros and can be undone (section 5.1.1 of FIPS 180-4) |
| Sha256.ZeroCountFits | pkg/kratos-sha256.c:122-145 | the zeros bring the length field to the end of a block, and no fewer would |
| Sha256.PadInjective | pkg/kratos-sha256.c:122-145 | messages with the same padding are the same |
| Sha256.Schedule | pkg/kratos-sha256.c:52-97 | the schedule array holds the message schedule of the block |
| Sha256.RunRounds | pkg/kratos-sha256.c:52-97 | the 64 rounds compute the working variables of section 6.2.2 |
| Sha256.Transform | pkg/kratos-sha256.c:52-97 | one block is compressed into the state |
| Sha256.Engine.constructor | pkg/kratos-sha256.c:39-50 | a fresh context stands for the empty message |
| Sha256.Engine.Update | pkg/kratos-sha256.c:99-120 | an update of any length appends its bytes to the message the context stands for |
| Sha256.Engine.Final | pkg/kratos-sha256.c:122-145 | the digest is the FIPS 180-4 hash of everything fed |
| Sha256.CounterLaws | pkg/kratos-sha256.c:99-145 | the 64-bit byte counter keeps position and bit length through wrap-around |
| Sha256.HashChunks | pkg/kratos-sha256.c:99-145 | every split of a message into updates gives the hash of the whole |
| HashTables.Rounds256 | pkg/kratos-sha256.c:20-37 | every round constant is the first 32 bits of the fractional part of the cube root of its prime |
| HashTables.Initial256 | pkg/kratos-sha256.c:39-50 | every initial word is that of the square root of its prime |
| Primes.PrimesInOrder | pkg/kratos-sha256.c:20-37 | the primes meant are the first 80, in order, none left out |
| HashWords.WordValue32 | pkg/kratos-sha256.c:52-60 | a word of a block is the big-endian number its bytes spell |
| HashWords.BytesValue32 | pkg/kratos-sha256.c:136-145 | a word of the digest is written as the big-endian number it is |
| Sha256Example.Digest | pkg/kratos-sha256.c:52-145 | the digest of "abc" is the published one |
| Sha512.PadFillsBlocks | init/kratos-crypt.c:114-136 | padding with a 128-bit length fills whole blocks and can be undone (section 5.1.2) |
| Sha512.ZeroCountFits | init/kratos-crypt.c:114-136 | the zeros bring the length field to the end of a block, in both padding cases, and no fewer would |
| Sha512.PadInjective | init/kratos-crypt.c:114-136 | messages with the same padding are the same |
| Sha512.Schedule | init/kratos-crypt.c:72-94 | the schedule array holds the message schedule of the block |
| Sha512.RunRounds | init/kratos-crypt.c:72-94 | the 80 rounds compute the working variables of section 6.4.2 for the source's constants |
| Sha512.Transform | init/kratos-crypt.c:72-94 | one block is compressed into the state, with the source's constants |
| Sha512.CounterLaws | init/kratos-crypt.c:96-112 | for updates shorter than 2^61 bytes the carry between the two counter words is right |
| Sha512.CounterExact | init/kratos-crypt.c:96-112 | for updates of any size the low word is right, and the high word exactly when the update is shorter than 2^61 bytes |
| Sha512.CounterWords | init/kratos-crypt.c:114-136 | the two words written out are the 128-bit length |
| Sha512.Engine.Count | init/kratos-crypt.c:96-112 | the two-word counter counts the bits fed, exactly when they are fewer than 2^64 at a time |
| Sha512.Engine.Update | init/kratos-crypt.c:96-112 | an update of any size appends its bytes to the message, and keeps the counter right exactly when it is shorter than 2^61 bytes |
| Sha512.Engine.Final | init/kratos-crypt.c:114-136 | the digest is the hash, with the source's tables, of everything fed, both padding cases |
| Sha512.HashChunks | init/kratos-crypt.c:96-136 | every split of a message into updates gives the hash, with the source's tables, of the whole |
| Sha512.TablesDiffer | init/kratos-crypt.c:28-70 | the source's tables are those of sections 4.2.3 and 5.3.5 of FIPS 180-4 but for constant 50 and the fifth initial word |
| HashTables.Rounds512 | init/kratos-crypt.c:28-49 | the standard's round constants are the first 64 bits of the cube roots of the first 80 primes |
| HashTables.Initial512 | init/kratos-crypt.c:59-70 | and its initial words those of square roots |
| HashWords.WordValue64 | init/kratos-crypt.c:72-80 | a word of a block is the big-endian number its bytes spell |
| HashWords.BytesValue64 | init/kratos-crypt.c:126-136 | a word of the digest is written as the big-endian number it is |
| Sha512Example.Digest | init/kratos-crypt.c:72-136 | with the standard's tables the digest of "abc" is the published one |
| Sha512.RoundsPart | init/kratos-crypt.c:86-91 | one wrong round constant makes the working variables differ exactly from its round on |
| Sha512.CompressParts | init/kratos-crypt.c:72-94 | with one wrong round constant no block leads from equal hash values to equal ones |
| Sha512.OneConstantParts | init/kratos-crypt.c:28-49 | hashes that differ in one round constant differ on every message or on its padding, whatever the initial words |
| Sha512.DigestsPart | init/kratos-crypt.c:28-136 | for every message, the source's digest of it or of its padding is not the one of FIPS 180-4 |
| Sha512.OneConstantDecides | init/kratos-crypt.c:28-49 | with the same initial words and at most one round constant different, all digests agree exactly when that constant does |
| Crypt.CleanSalt | init/kratos-crypt.c:215-222 | the salt is what follows the prefix up to a dollar sign, the end or 16 bytes |
| Crypt.FirstDigest | init/kratos-crypt.c:224-257 | steps A to D compute the scheme's first digest over the source's hash |
| Crypt.Round | init/kratos-crypt.c:291-301 | one round hashes the parts its number selects |
| Crypt.EncodeDigest | init/kratos-crypt.c:303-330 | the unrolled output calls print the permuted base-64 text |
| Crypt.KratosCrypt | init/kratos-crypt.c:211-332 | for keys of up to 256 bytes the whole function equals the scheme's text over the source's hash |
| Crypt.TextsAgree | init/kratos-crypt.c:211-332 | that text is the one of SHA-512crypt exactly when the two hashes agree on the stretched digest |
| Crypt.B64From24Bit | init/kratos-crypt.c:142-146 | n characters, six bits each, low bits first |
| Crypt.ConstantTimeStreq | init/kratos-crypt.c:334-347 | true exactly for equal strings |
| Crypt.SaltSurvives | init/kratos-crypt.c:215-222 | the salt extracted from an output is the salt that went in |
| Crypt.StoredHashVerifies | init/login.c:244-245 | a stored hash used as the salt reproduces itself |
| Crypt.DecodeRight | init/kratos-crypt.c:303-330 | every digest byte can be read back from the 86 characters |
| Crypt.B64DigestInjective | init/kratos-crypt.c:303-330 | different digests have different texts |
| Crypt.EachByteOnce | init/kratos-crypt.c:307-328 | the 22 groups use each of the 64 digest bytes once |
| CryptScheme.ExtractedSalt | init/kratos-crypt.c:215-222 | the salt stands behind "$6$" and ends at a dollar sign, the end or 16 bytes |
| CryptScheme.TextLayout | init/kratos-crypt.c:303-330 | the text is "$6$", salt, "$" and 86 characters |
| CryptScheme.FirstDigestIs | init/kratos-crypt.c:226-257 | byte by byte and bit by bit what the first digest is of |
| CryptScheme.PStringIs | init/kratos-crypt.c:259-271 | the password's string, from the password as often as it is long |
| CryptScheme.SStringIs | init/kratos-crypt.c:273-284 | the salt's string, from the salt 16 times and once per unit of the first byte |
| CryptScheme.RoundInputIs | init/kratos-crypt.c:290-301 | what a round hashes, by its number modulo 2, 3, 7 and 21 |
| CryptScheme.StretchedIs | init/kratos-crypt.c:286-301 | 5000 such rounds follow one another from the first digest |
| CryptScheme.FedInAll | init/kratos-crypt.c:286-301 | in all the rounds hash the password's string 9285 times and the salt's 3333 times |
| CryptScheme.GroupSpells | init/kratos-crypt.c:307-327 | each four characters spell three bytes 21 apart, the highest going round |
| CryptScheme.LastSpells | init/kratos-crypt.c:328 | the last two spell the last byte |
| TarPath.IsSafeRelpath | pkg/kratos-tar.c:89-114 | accepts exactly the paths of the stated form |
| TarPath.NoParentComponent | pkg/kratos-tar.c:89-114 | an accepted path has no ".." component |
| TarPath.IsSafeSymlinkTarget | pkg/kratos-tar.c:116-170 | the depth counter decides whether resolving the target with a stack stays inside |
| TarPath.DirectoryDepth | pkg/kratos-tar.c:131-148 | the first loop counts the directories above the entry |
| TarPath.TraceTarget | pkg/kratos-tar.c:150-169 | the second loop succeeds exactly when the stack resolution never pops above the root |
| TarPath.ResolveAllPrefixes | pkg/kratos-tar.c:150-169 | a resolution survives exactly when it survives on every prefix |
| TarPath.TargetStaysInside | pkg/kratos-tar.c:116-170 | for accepted paths and ordinary relative targets, acceptance is exactly never stepping above the root |
| TarHeader.ParseOctal | pkg/kratos-tar.c:49-62 | the loops compute the number the field denotes |
| TarHeader.OctalRoundTrip | pkg/kratos-tar.c:407-412 | a number written into a field is read back exactly when it fits |
| TarHeader.VerifyTarChecksum | pkg/kratos-tar.c:64-83 | accepts exactly when the stored number is the unsigned or the signed sum with the field blanked |
| TarHeader.WriteHeader | pkg/kratos-tar.c:414-455 | the header filled in place is the layout of its fields with its sum sealed in |
| TarHeader.SealVerifies | pkg/kratos-tar.c:447-453 | every written header passes the reader's check |
| TarHeader.SingleByteDetected | pkg/kratos-tar.c:64-83 | any single changed byte outside the checksum field is noticed, signed sum or not |
| TarTree.Writer.AppendFile | pkg/kratos-tar.c:414-477 | adds the entry's header and padded data, nothing for special files |
| TarTree.Writer.AppendData | pkg/kratos-tar.c:457-474 | the copy loop writes the data in 512-byte blocks, the last one filled up |
| TarTree.Writer.AppendTree | pkg/kratos-tar.c:479-517 | adds the records of the whole tree, parents before children |
| TarTree.Writer.Create | pkg/kratos-tar.c:519-549 | the archive is the walk and two zero blocks |
| TarTree.PlacedAll | pkg/kratos-tar.c:271-342 | placing a tree makes every path hold what the tree has there and changes no other path |
| TarTree.ManifestFile.Build | pkg/kratos-pack.c:46-83 | writes one line per path that is not a directory, in walk order |
| TarTree.ManifestLists | pkg/kratos-pack.c:46-83 | the manifest lists exactly the paths of the tree that are not directories |
| TarTree.LinesName | pkg/kratos-pack.c:46-83 | the lines written spell the paths listed |
| TarManifest.ManifestMatches | pkg/kratos-pack.c:138-182 | unpacked into an empty directory a packed payload goes through and agrees with its manifest exactly when the tree has no special file and nothing in it is refused |
| TarManifest.AbsoluteLinkWitness | pkg/kratos-tar.c:285-289 | a tree of one absolute link is packed and listed, and nothing of it is unpacked |
| TarManifest.LongNameCut | pkg/kratos-tar.c:422 | a path of more than 99 bytes comes back under another name |
| TarExtract.Reader.MakeParentDirs | pkg/kratos-tar.c:172-199 | makes the missing directories above an entry, outermost first, links followed |
| TarExtract.Reader.ExtractFile | pkg/kratos-tar.c:311-338 | writes exactly the entry's bytes where its name leads, or stops with what whole blocks gave |
| TarExtract.Reader.ExtractEntry | pkg/kratos-tar.c:231-342 | the checks of an entry in their order, each with its code, and the effect of each type |
| TarExtract.Reader.ExtractFd | pkg/kratos-tar.c:205-346 | the block loop, zero blocks included, refines the recursive extraction |
| TarForms.TwoPartName | pkg/kratos-tar.c:236-242 | with the magic "ustar", a name in two parts is read as prefix, slash and name |
| TarForms.OnePartName | pkg/kratos-tar.c:236-242 | without prefix or magic the name is the first field, with or without a NUL |
| TarForms.CleanStrips | pkg/kratos-tar.c:244-249 | any number of leading "./" and then of slashes is taken off a name |
| TarForms.OctalBlanks | pkg/kratos-tar.c:49-62 | blanks and NULs before an octal number do not change it |
| TarForms.ChecksumExactly | pkg/kratos-tar.c:64-83 | a header passes exactly when its field holds the unsigned or the signed sum of the other bytes and eight blanks |
| TarForms.Ends | pkg/kratos-tar.c:210-230 | a cut block ends an archive well only behind a zero block; two zero blocks end it whatever follows |
| TarForms.PathLength | pkg/kratos-tar.c:89-114 | the longest accepted path has 4063 bytes |
| TarForms.TargetCut | pkg/kratos-tar.c:149-166 | a link target is resolved as far as its first 4095 bytes |
| TarForms.EntryCodes | pkg/kratos-tar.c:232-342 | which check refuses an entry first and with what code, the size limit being 512 MiB |
| TarForms.RecordLength | pkg/kratos-tar.c:456-474 | a record is its header and as many blocks of 512 bytes as its data needs |
| TarRoundTrip.HeaderReads | pkg/kratos-tar.c:231-265 | name, type, mode, size and link target of a written header are read back, and its name is safe exactly when the path is |
| TarRoundTrip.WalkExtracts | pkg/kratos-tar.c:205-346 | extracting the walk of a directory places its entries up to the first refused one, with that one's code, and continues behind it when there is none |
| TarRoundTrip.ArchiveExtracts | pkg/kratos-tar.c:205-346 | so for a whole archive below any directory where nothing stands in its way |
| TarRoundTrip.PutAllPlaces | pkg/kratos-tar.c:255-309 | that goes through exactly when no path, size or link target is refused, and then places the whole tree |
| TarRoundTrip.RoundTrip | pkg/kratos-tar.c:205-346 | extracting an archive puts the archived tree below any directory where nothing stands in its way |
| TarRoundTrip.Rebuilds | pkg/kratos-tar.c:205-346 | into an empty directory of any file system, every path below it ends up with exactly the bytes, mode (the low nine bits, or 0644 for none) or target of the tree, and every other path as it was |
| FileSystem.FollowStanding | pkg/kratos-tar.c:275-277 | a lookup through real directories arrives where the names say |
| FileSystem.CallsContained | pkg/kratos-tar.c:281-338 | a system call changes something outside the target directory exactly when the directory it reaches is outside and nothing makes it fail |
| FileSystem.FollowDescending | pkg/kratos-tar.c:275-277 | among links that do not climb, a lookup without ".." stays below |
| FileSystem.FortyLinks | pkg/kratos-tar.c:275-277 | a lookup follows 40 links and no more |
| TarContainment.ExtractKept | pkg/kratos-tar.c:205-346 | an archive whose every entry keeps a rule (no name through a link, or no climbing link) changes nothing outside and leaves only links that keep it |
| TarContainment.ContainedAvoiding | pkg/kratos-tar.c:205-346 | whatever its bytes, an archive none of whose names or hard link sources runs through a link changes nothing outside the target directory |
| TarContainment.ContainedDescending | pkg/kratos-tar.c:205-346 | nor does one none of whose link targets has a "..", where no link has one yet |
| TarContainment.EscapeWitness | pkg/kratos-tar.c:267-338 | "x" -> ".", "x/y" -> "..", "y/e" makes a file outside |
| TarContainment.CopiedLinkWitness | pkg/kratos-tar.c:295-310 | a hard link to an accepted link leads outside although its target would not be accepted there |
| TarContainment.BackslashWitness | pkg/kratos-tar.c:150-169 | a target with a backslash is accepted although its components climb above the root |
| DepsVersion.KratosVersionCmp | pkg/kratos-deps.c:26-79 | terminates and returns the sign of the token comparison |
| DepsVersion.CompareSegments | pkg/kratos-deps.c:52-75 | one round compares two segments and stands behind both |
| DepsVersion.Antisymmetric | pkg/kratos-deps.c:26-79 | swapping the versions flips the sign |
| DepsVersion.EqualIffSameTokens | pkg/kratos-deps.c:26-79 | zero exactly when the token sequences agree |
| DepsVersion.TransitiveExactly | pkg/kratos-deps.c:26-79 | three versions are ordered consistently exactly when they do not split three ways |
| DepsVersion.SameKindsTransitive | pkg/kratos-deps.c:26-79 | transitive on versions with the same kind of token at shared positions |
| DepsVersion.CycleWitness | pkg/kratos-deps.c:36-50 | 1.a < 1 < 1.0 < 1.a |
| DepsVersion.LongWords | pkg/kratos-deps.c:61-75 | words are cut every 63 letters: a dot between two words goes unnoticed exactly when the first has a multiple of 63 letters |
| DepsVersion.Separators | pkg/kratos-deps.c:35-38 | a byte separates exactly when it is neither letter nor digit |
| DepsVersion.SatisfiesExactlyOne | pkg/kratos-deps.c:81-99 | of an operator and its opposite exactly one holds, and equality means equal tokens |
| RepoVersion.RepoVersionCmp | pkg/kratos-repo.c:71-86 | the loop returns the sign of the token comparison |
| RepoVersion.TotalPreorder | pkg/kratos-repo.c:71-86 | reflexive, sign-antisymmetric, transitive |
| RepoVersion.Laws | pkg/kratos-repo.c:71-86 | the lexicographic token order is total, zero exactly on equal tokens |
| RepoVersion.DottedAgree | pkg/kratos-repo.c:71-86 | on dotted-numeric versions the comparators agree exactly when the clamp of strtol hides nothing that decides |
| RepoVersion.DottedAgreeInRange | pkg/kratos-deps.c:52-59 | they agree whenever every component fits a long |
| RepoVersion.OnePart | pkg/kratos-deps.c:52-59 | two numbers are compared by value, except that one comparator takes all from 2^64 - 1 on for equal, the other all from 2^63 - 1 on |
| RepoVersion.PreReleaseWitness | pkg/kratos-deps.c:41-50 | they disagree on 1.0rc1 against 1.0 |
| RepoVersion.MaskedWitness | pkg/kratos-deps.c:52-59 | they disagree on two twenty-digit numbers |
| Repo.Find | pkg/kratos-repo.c:559-590 | returns an offered package of the highest priority, among those of the highest version, the first listed of equals, and nothing only if none is offered |
| Repo.PickIsBest | pkg/kratos-repo.c:559-590 | the pick is beaten by no offer and beats every earlier one |
| Repo.Unbeaten | pkg/kratos-repo.c:559-590 | every other offer has a lower priority, or the same and no higher version |
| Repo.PickIsChosen | pkg/kratos-repo.c:559-590 | so among all packages of all repositories, and those listed before the choice are lower |
| Repo.OrderDoesNotMatter | pkg/kratos-repo.c:559-590 | for every order of the repositories and of the packages in each, same priority and equal version |
| Repo.Upgrader.Select | pkg/kratos-repo.c:796-814 | the selection loop of the upgrade picks what find picks, highest priority first and then version |
| Repo.CandidateExactly | pkg/kratos-repo.c:760-830 | an upgrade is attempted exactly for a listed entry with a version when the chosen package's is higher |
| Repo.Upgrader.Upgrade | pkg/kratos-repo.c:734-867 | one pass refines the fold over installed packages, and fails exactly when an attempted upgrade did |
| Repo.PassAdvances | pkg/kratos-repo.c:734-867 | a pass drops no package and lowers no version, whatever fails |
| Repo.ChangedByWorking | pkg/kratos-repo.c:734-867 | a pass changes an entry only by installing, with success, the package find chooses for it |
| Repo.RunAdvances | pkg/kratos-repo.c:734-867 | nor does any run of passes with any indexes |
| Repo.SecondPassFindsNone | pkg/kratos-repo.c:734-867 | after a pass in which all went through, the same index offers no upgrade |
| RepoCache.Sha256File | pkg/kratos-sha256.c:161-186 | the text is the hexadecimal FIPS 180-4 hash of the file |
| RepoCache.HexTextIs | pkg/kratos-sha256.c:147-159 | each byte becomes two small hexadecimal digits, high half first |
| RepoCache.SameTextIs | pkg/kratos-repo.c:707-719 | checksums are compared without regard to case |
| RepoCache.ChecksumPinsDigest | pkg/kratos-repo.c:707-719 | a checksum text, in whatever case, matches at most one digest |
| RepoCache.Cache.DownloadPkg | pkg/kratos-repo.c:658-728 | a returned file matches its checksum, the cached file is never replaced by one that does not, nothing else changes |
| RepoCache.IndexIsAlwaysChecked | pkg/kratos-repo.c:396-553 | over updates interrupted anywhere, the key looked for in each, the index in place is the first one or one that parsed and, if its update found a key, was verified |
| RepoCache.PairedExactly | pkg/kratos-repo.c:485-529 | when index and signature match after an update, finished or cut off, in terms of what it renamed and found |
| RepoCache.WholeUpdatesPair | pkg/kratos-repo.c:485-529 | over every run that starts with a matching pair, they match as long as every update renamed both or neither |
| RepoCache.InterruptedUpdateWitness | pkg/kratos-repo.c:513-529 | an update cut between its renames leaves a mismatched pair |
| CStrings.NextToken | pkg/kratos-deps.c:132 | strtok_r returns the next nonempty field and stands behind it |
| DepList.TrimWhitespace | pkg/kratos-deps.c:105-118 | the two loops strip blanks at both ends |
| DepList.ParseDependencies | pkg/kratos-deps.c:120-187 | the loop returns the parsed rules, at most 32, each with a name |
| DepList.ParsePrinted | pkg/kratos-deps.c:120-187 | any printed list within the limits parses back, whatever the blanks, separators and spelling of equality |
| DepList.ParseBounds | pkg/kratos-deps.c:120-187 | of any text at most 32 rules come out of the first 1023 bytes, names up to 63 bytes, versions up to 31 |
| DepList.OperatorShift | pkg/kratos-deps.c:140-159 | an operator between operator-free texts is found where it stands, in the order of the search |
| DepList.CheckDependenciesSatisfied | pkg/kratos-deps.c:221-269 | true exactly when every rule is met, base packages met while absent |
| DepList.AbsentMet | pkg/kratos-deps.c:228-243 | of the packages that are not installed only glibc and kpm count as there |
| DepList.CheckConflicts | pkg/kratos-deps.c:271-294 | true exactly when some rule of the list hits an installed package |
| DepList.RunKeepsDependencies | pkg/kratos-pkg.c:515-533 | over every run of non-forced installs from an empty database, rules outside the base stay met |
| DepList.InstallKeepsAllMet | pkg/kratos-deps.c:230-236 | with the base included, exactly when an install does not bring in a base package that breaks a rule |
| DepList.LateBaseWitness | pkg/kratos-deps.c:230-236 | a run that breaks a rule on glibc |
| DepList.RunWithoutMutualConflicts | pkg/kratos-pkg.c:516-521 | over every run of non-forced installs, no two installed packages name each other as conflicts |
| Resolve.Installer.InstallRecursive | pkg/kratos-pkg.c:397-446 | the recursion terminates and refines the resolution function, database and install order included |
| Resolve.CallExtends | pkg/kratos-pkg.c:397-446 | every call, failed or not, only adds installs, each after its dependencies and none twice; a successful one takes care of its package |
| Resolve.StaysClosed | pkg/kratos-pkg.c:397-446 | closure under index dependencies survives every call, failed or not |
| Resolve.UnfoundedFails | pkg/kratos-pkg.c:397-446 | a set of packages each needing another of the set is never entered |
| Resolve.CycleFails | pkg/kratos-pkg.c:397-446 | installing a member of a cycle of uninstalled packages fails |
| Resolve.LineExactly | pkg/kratos-pkg.c:397-402 | a line of packages each needing the next is installed exactly when it has at most 21 |
| Resolve.UnofferedExactly | pkg/kratos-pkg.c:412-424 | a package no repository offers counts as installed exactly when it is one of the nine of the base system |
| Resolve.ReachableSucceeds | pkg/kratos-pkg.c:397-446 | if everything is found, every install works and no chain exceeds 20 edges, the call succeeds |
| PkgDb.Database.PathSetLoad | pkg/kratos-pkg.c:315-339 | loads the safe lines, leading slashes dropped |
| PkgDb.Database.PathSetContains | pkg/kratos-pkg.c:349-355 | membership in the set |
| PkgDb.Database.RemoveOrphanedFiles | pkg/kratos-pkg.c:362-389 | unlinks the files of the old manifest that the new one lacks |
| PkgDb.Database.CheckManifest | pkg/kratos-pkg.c:535-557 | true exactly when every line is safe |
| PkgDb.Database.InstallKpkg | pkg/kratos-pkg.c:452-642 | refines the install function; a failure leaves the database alone, and the disk unless the payload failed |
| PkgDb.InstallExactly | pkg/kratos-pkg.c:452-642 | an install goes through exactly when it unpacks, is new or forced, has right checksums, hits no conflict and meets its dependencies unless forced, has a safe manifest and a payload that unpacks; then it is recorded |
| PkgDb.ConflictRefused | pkg/kratos-pkg.c:516-521 | a package with a conflict that names an installed version is refused and nothing changes |
| PkgDb.Database.RemovePkg | pkg/kratos-pkg.c:648-716 | refines the remove function |
| PkgDbRuns.TreeLists | pkg/kratos-pack.c:46-83 | a packed manifest lists exactly the files and links of the tree |
| PkgDbRuns.Unpacked | pkg/kratos-pkg.c:570-594 | unpacking adds or replaces the manifest's files and no other |
| PkgDbRuns.OrphanPaths | pkg/kratos-pkg.c:362-389 | comparing the texts of two packed manifests compares their paths |
| PkgDbRuns.InstallEffect | pkg/kratos-pkg.c:452-642 | an upgrade deletes exactly old minus new, gives the new files the tree's contents, touches no other file |
| PkgDbRuns.RemoveEffect | pkg/kratos-pkg.c:648-716 | a remove deletes exactly the package's own files |
| PkgDbRuns.InstallKeeps | pkg/kratos-pkg.c:452-642 | an install, failed or not, keeps disk and manifests consistent |
| PkgDbRuns.RemoveKeeps | pkg/kratos-pkg.c:648-716 | so does a remove |
| PkgDbRuns.RunKeepsConsistent | pkg/kratos-pkg.c:452-716 | over every run the disk is exactly the base and the union of the current manifests, pairwise disjoint, each file in a real directory |
| PkgDbRuns.FreshRun | pkg/kratos-pkg.c:452-716 | so too from a system with nothing installed, whose own files alone are left once everything is removed |
| PkgDbRuns.CollisionDeletes | pkg/kratos-pkg.c:452-716 | a package that brings another one's path takes it over, and removing it deletes the path the other still lists |
| PkgDbRuns.CollisionWitness | pkg/kratos-pkg.c:452-716 | two packages with the same file pass every check, and removing the second deletes the first one's file |
| PkgDbRuns.RunKeepsDependencies | pkg/kratos-pkg.c:523-533 | over every run of non-forced installs every dependency outside the base stays met |
| PkgDbRuns.RunWithoutConflicts | pkg/kratos-pkg.c:516-521 | over every run of non-forced installs no package went in while one of its conflicts was installed |
| Chunked.Transfer.ReaderRead | pkg/kratos-fetch.c:315-348 | returns a nonempty beginning of what is left, leftover first, and nothing only at the end |
| Chunked.Transfer.ReadExactToFile | pkg/kratos-fetch.c:354-379 | writes exactly n bytes, or everything left and fails |
| Chunked.Transfer.ReadLine | pkg/kratos-fetch.c:384-399 | returns the next line, CRs dropped, cut to the buffer |
| Chunked.Transfer.ReadTrailers | pkg/kratos-fetch.c:598-610 | skips trailer lines up to the blank one |
| Chunked.Transfer.ChunkedBody | pkg/kratos-fetch.c:578-626 | whatever the fragmentation, output and failure are those of the decoder of the whole stream |
| Chunked.Transfer.IdentityBody | pkg/kratos-fetch.c:627-654 | the first content-length bytes, failing exactly when there are fewer; or everything |
| Chunked.DecodesBody | pkg/kratos-fetch.c:578-626 | a well-formed stream (section 4.1 of RFC 7230), sizes in up to 63 digits of either case, decodes to its body and nothing behind it is consumed |
| Chunked.DecodeExtends | pkg/kratos-fetch.c:578-626 | a successful transfer does not depend on what follows |
| Chunked.PrefixFails | pkg/kratos-fetch.c:578-626 | every strict prefix of a well-formed stream fails |
| Chunked.Sendable | pkg/kratos-fetch.c:587-596 | every nonempty piece of a body can be sent as a chunk |
| Chunked.SizeForms | pkg/kratos-fetch.c:590 | how a size is read: blanks, a sign and 0x skipped, digits of either case, the largest value for too many, 2^64 less it behind a minus |
| Chunked.NoSizeFails | pkg/kratos-fetch.c:588-595 | a stream that begins with anything else fails at once |
| Chunked.LongSizeLine | pkg/kratos-fetch.c:580-586 | a size line is cut behind 63 bytes |
| Supervision.Ttys.ReapZombies | init/signals.c:30-42 | exactly the slots of the reaped processes are cleared |
| Supervision.Ttys.CheckAndRespawn | init/tty.c:168-200 | exactly the empty, present, unsuppressed consoles get the result of fork |
| Supervision.ReapPass | init/signals.c:30-42 | in every run the reaping steps, interleaved with anything, change the slots as the reaping loop does |
| Supervision.RespawnPass | init/tty.c:168-200 | and the steps of a pass over the consoles change them as the respawn loop does |
| Supervision.PassMovesOn | init/tty.c:168-200 | every step of a pass goes on to the fork of its console or to the next console, and the pass comes to its end |
| Supervision.ForkExactly | init/tty.c:168-200 | a pass can go on to the fork of a console exactly when no shell is there and it is not suppressed |
| Supervision.ClearedHadExited | init/signals.c:30-42 | a slot is only cleared for a shell that has exited and is reaped, and reaping leaves no exited child |
| Supervision.RunSupervised | init/tty.c:123-200 | in every reachable state a positive slot is an unreaped child of that console, each console has at most one, none is shared |
| Supervision.FailedForkIsForGood | init/tty.c:168-200 | a slot set to -1 stays -1 |
| Supervision.FirstConsoleSuppressed | init/tty.c:188-198 | tty1 is forked for only after the session was seen inactive |
| Supervision.RunRecorded | init/signals.c:7-10 | caught_sig is the last signal since the last clear |
| Supervision.ShutdownWasAsked | init/init.c:98-112 | the system goes down only for a delivered request: reboot for SIGINT, power off for SIGUSR1 and SIGPWR, halt for SIGUSR2 |
| Supervision.ServedGoesDown | init/init.c:98-112 | once a signal other than SIGCHLD has been acted on, the system is going down |
| Supervision.ServedWasLast | init/init.c:98-112 | a signal acted on was the last one when the loop loaded caught_sig |
| Supervision.LoadedIsServed | init/init.c:98-112 | a loaded signal is acted on whatever happens meanwhile |
| Supervision.WipedIsLost | init/init.c:98-112 | a signal gone from caught_sig, overwritten or cleared, without being loaded is never acted on |
| Supervision.NoShutdownFollows | init/init.c:98-112 | as long as every request was wiped the system stays up |
| Supervision.ActedOnExactly | init/init.c:98-112 | a signal is loaded or acted on exactly when it was the last one delivered at some load |
| Supervision.RequestLostWitness | init/init.c:100-102 | a run in which a request between load and clear is wiped |
| Dhcp.ParseOptions | init/kratos-net.c:357-387 | the loop stays inside the received bytes and returns the last address of each kind in the TLV reading |
| Dhcp.ReadsBack | init/kratos-net.c:357-387 | encoded options are read back in order (section 2 of RFC 2132) |
| Dhcp.LeaseReadsBack | init/kratos-net.c:357-387 | for any options in any order the lease is, address by address, what the last option that sets it says |
| Dhcp.CutKeepsPrefix | init/kratos-net.c:357-387 | a message cut anywhere loses options from the end and alters none |

## Left out

- TLS, sockets, DNS, URLs and Ed25519: signature verification is an abstract predicate, a socket is its bytes.
- Hooks, messages, memory exhaustion and full disks: hooks do nothing, writes and allocations succeed.
- `strtod` and number values: a JSON number is its literal text.
- JsonParser.Parser.ParseNumber: keeps the literal and leaves out the conversion to a double that follows it.
- `parse_index_json` and the repository configuration: an index is a list of packages with name, version and dependencies.
- Repo.Upgrader.Upgrade: a successful forced install is taken to record the version of the index entry; the database name and the file name of an entry are one.
- Resolve.Installer.InstallRecursive: whether a download and install goes through is a parameter of the package and of the installs before it; the installed name is the index name.
- Crypt.KratosCrypt: keys of more than 256 bytes, which the buffer P does not hold; `kratos_gensalt` needs randomness.
- Sha512.HashChunks: updates of 2^61 bytes or more, for which the counter is wrong.
- TarExtract.Reader.ExtractFd: the file system is a map from paths without permissions, hard links copy what they name, the umask is zero, pipes deliver whole blocks, the callback is absent.
- TarTree.Writer.AppendTree: directory order is the order of the entries, and no path reaches PATH_MAX.
- gzip: a compressed payload is the archive inside it.
- PkgDb.Database.InstallKpkg: unpacking the container and comparing its checksums are two flags, the target is the root of the file system, manifest lines are shorter than PATH_MAX, and concurrent package managers are not modelled.
- PkgDbRuns.RunKeepsConsistent: packages are those packed by the repository's own tool from trees without special files of which the reader refuses nothing, and an install that reaches the payload may not collide with base files, links to directories included, or with other packages, which the code does not check.
- Conflicts of installed packages with later ones, and reverse dependencies on removal or forced upgrade: the code does not check them.
- `write_db_manifest` and its hash lines: defined but never called.
- RepoCache.IndexIsAlwaysChecked: the key may come and go between updates but stays the same one.
- Supervision.RunSupervised: the table's `dev` and `enabled` fields are constant, so only the pids are state; what a shell or a shutdown does is outside.
- Dhcp.ParseOptions: addresses are four bytes, without their dotted text; the socket exchange and the fallback addresses are outside.
- useradd, userdel, usermod, groups, devd rules and probes, df, ps, kill, dmesg and the other small tools: line copies, tables and formatting.
