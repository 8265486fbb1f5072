# ropoly core, modelled in Dafny

ropoly is a return-oriented-programming toolkit. It finds gadgets in a
process or a binary, "fingerprints" them (region kind → gadget signature →
addresses), and compares two fingerprints to see how code moved. This
project models three parts of its core and proves properties of them.

- **Fingerprints** (`fingerprint.dfy`, lib/Fingerprint.go).
  - `Fingerprint` replays a gadget search as a sequence of events: entering a region, or finding a gadget.
  - It is proved to build exactly the table the reference predicate `Describes` gives for the gadgets' arrival order.
  - `CompareFingerprints` and `CompareFingerprintRegions` keep the source's loops over maps. Go's map iteration order is modelled as an arbitrary choice.
  - Their results are specified for every order: enumerations of exact key sets, displacement lists, and added signatures.
- **Instruction segmentation** (`x86decoder.dfy`, lib/architectures/amd64/x86Decoder.go).
  - The disassembler is a function-valued parameter.
  - `GadgetDecoder` keeps the source's loop. It is proved equal to the recursive `Segment`.
  - `Segment` is proved to succeed exactly when the input has a *tiling*. A tiling is a cut into instructions, each decoded from its own offset, whose bytes concatenate back to the input. That tiling is unique.
- **Request parameters** (`handlers.dfy`, handlers/rop.go).
  - The access specification of the memory-regions handler is modelled on R, W, X, F and "NONE". `ParseAccess` keeps the source's successive letter tests and deletions. It is proved equal to the declarative `AccessOf`.
  - `getFilepath` is modelled as `strings.Split`'s last piece, cut at '?', with "/" for an empty path. `GetFilepath` applies the abstract normaliser to `RequestPath`.
  - The path is taken after the *last* occurrence of the route, even when that occurrence sits in the query. So a query that repeats the route decides the file path: `/api/v1/files/tmp?q=api/v1/files/etc` names `/etc` (`QueryCanDecidePath`).
  - `getPid` and the pid/access prologue of the regions handler are modelled too.
- **Shared types** (`types.dfy`): bytes, unsigned 64-bit values and wrapping subtraction, `Result`/`Option`, and Go errors observed through their messages.

`old` and `new` are Dafny keywords, so the comparison parameters are called `before` and `after`.

## Model

| member | source | states |
|---|---|---|
| Types.Sub64 | lib/Fingerprint.go:47 | the wrapping difference d satisfies (b + d) mod 2^64 = a, and equals a − b when a ≥ b |
| Types.DisplacementRoundTrip | lib/Fingerprint.go:58 | adding a displacement back to the old address gives the new address (mod 2^64) |
| Types.ZeroDisplacement | lib/Fingerprint.go:47 | the displacement is zero exactly when the two addresses are equal |
| Fingerprints.WithGadget | lib/Fingerprint.go:13-19 | the gadget callback adds the section's kind, leaves other kinds alone, keeps an existing kind's region (else stores the section), and appends the address to the signature's list, other signatures unchanged |
| Fingerprints.Fingerprint | lib/Fingerprint.go:8-23 | the table built from the events is the one `Describes` defines: exactly the kinds gadgets arrived in, each kind's first gadget's region, exactly its signatures, and each list holds the addresses in arrival order |
| Fingerprints.DescribesWithGadget | lib/Fingerprint.go:13-19 | one more gadget callback keeps the table a fingerprint of the arrivals extended by that gadget |
| Fingerprints.AddressesUnderAppend | lib/Fingerprint.go:19 | a later batch of arrivals only appends to a list: the list for a + b is the list for a followed by the list for b |
| Fingerprints.FirstIndexStable | lib/Fingerprint.go:14-18 | a kind's stored region is fixed by its first gadget; later arrivals never change which arrival is first |
| Fingerprints.FingerprintWellFormed | lib/Fingerprint.go:14-19 | every stored region has its own kind, and no signature's list is empty |
| Fingerprints.Displacements | lib/Fingerprint.go:56-59 | one entry per new address, in order, each the wrapping distance from the old address |
| Fingerprints.DisplacementsOfSignature | lib/Fingerprint.go:53-61 | every old address of the signature gets the displacement list to that signature's new addresses (empty when `after` lacks it), other entries kept |
| Fingerprints.GadgetDisplacements | lib/Fingerprint.go:52-62 | exactly the old addresses have an entry, and each is the displacement list for one signature the address is filed under |
| Fingerprints.AddedGadgets | lib/Fingerprint.go:64-68 | exactly the signatures `before` lacks, with `after`'s address lists unchanged |
| Fingerprints.CompareFingerprintRegions | lib/Fingerprint.go:44-71 | keeps the old region, the wrapping region displacement, the per-address displacement lists and the added signatures |
| Fingerprints.OldRegions | lib/Fingerprint.go:28-34 | the removed names enumerate the old-only kinds and carry their regions; the shared names enumerate the common kinds and carry a region comparison of each |
| Fingerprints.NewRegions | lib/Fingerprint.go:35-39 | the added names enumerate exactly the new-only kinds and carry their regions |
| Fingerprints.CompareFingerprints | lib/Fingerprint.go:25-42 | the comparison lists removed, shared and added regions for exactly the right names, in some order, so it holds one entry per old-only, common and new-only region |
| Fingerprints.ComparisonPartitionsNames | lib/Fingerprint.go:28-39 | every old name is removed or shared, never both; every new name is shared or added, never both; nothing else is listed |
| Fingerprints.ComparisonSizes | lib/Fingerprint.go:28-39 | removed + shared counts the old regions, and shared + added counts the new ones |
| Fingerprints.SelfComparison | lib/Fingerprint.go:25-71 | comparing a fingerprint with itself removes and adds nothing; every displacement is zero, no gadget is added, and each old address finds itself at distance 0 |
| X86Decoder.InstructionDecoder | lib/architectures/amd64/x86Decoder.go:10-30 | succeeds exactly when the decoder returns a length within the input; the octets are then the first len bytes and the text is the decoder's; decoder errors are wrapped and panics become errors |
| X86Decoder.GadgetDecoder | lib/architectures/amd64/x86Decoder.go:32-49 | equals `Segment`; empty input gives the empty gadget; on success the gadget tiles the input and has at most |input| instructions; it fails exactly when no tiling exists |
| X86Decoder.PrependStep | lib/architectures/amd64/x86Decoder.go:36-46 | one turn of the loop moves the decoded instruction from the result for the rest onto the gadget decoded so far |
| X86Decoder.SegmentIffTiling | lib/architectures/amd64/x86Decoder.go:35-48 | `Segment` returns g exactly when g tiles the input, so the cut is unique |
| X86Decoder.SegmentIsTiling | lib/architectures/amd64/x86Decoder.go:35-48 | a successful result's octets concatenate back to the input, each instruction decoded from its own offset |
| X86Decoder.TilingIsSegment | lib/architectures/amd64/x86Decoder.go:35-48 | any tiling of the input is the one the loop produces |
| X86Decoder.SegmentLength | lib/architectures/amd64/x86Decoder.go:41-46 | a successful result has at most as many instructions as the input has bytes |
| X86Decoder.TilingOfEmpty | lib/architectures/amd64/x86Decoder.go:35 | the only tiling of the empty input is the empty gadget |
| Handlers.ToUpper | handlers/rop.go:430 | upper-casing keeps the length and maps each character through ASCII upper-casing |
| Handlers.RemoveFirst | handlers/rop.go:438 | deleting the first occurrence leaves the string alone when the character is absent, and shortens it by one otherwise |
| Handlers.RemoveFirstCutsAtFirst | handlers/rop.go:438 | when i is the first index holding the character, the deletion leaves exactly the characters before i followed by those after it |
| Handlers.RemoveFirstMultiset | handlers/rop.go:438 | the deletion removes exactly one copy of the character |
| Handlers.TakeLetter | handlers/rop.go:436-439 | one letter test grants the flag when its letter occurs, and deletes the first occurrence of that letter |
| Handlers.TakeFlagLetters | handlers/rop.go:436-451 | the four tests grant exactly the flags whose letters occur and leave the residue after one R, W, X and F are deleted |
| Handlers.ParseAccess | handlers/rop.go:428-456 | the result is `AccessOf` of the upper-cased input; past "NONE" and "", it fails exactly when something remains after the deletions |
| Handlers.ResidueEmptyIff | handlers/rop.go:436-454 | nothing remains exactly when the specification uses only R, W, X, F, each at most once |
| Handlers.AccessOfResidue | handlers/rop.go:436-454 | past "NONE" and "", the meaning is the letters' flags when nothing remains, and the error otherwise |
| Handlers.AccessOfOrderIndependent | handlers/rop.go:436-451 | two specifications that are permutations of each other (neither "NONE") mean the same |
| Handlers.AccessCaseInsensitive | handlers/rop.go:430 | specifications agreeing up to case mean the same |
| Handlers.AccessDefaults | handlers/rop.go:431-434 | "" is read access and "none" (any case) is no access |
| Handlers.RepeatedLetterRejected | handlers/rop.go:436-454 | "RR" is rejected |
| Handlers.NoneWithLetterRejected | handlers/rop.go:431-454 | "NONER" is rejected |
| Handlers.LettersGiveFlags | handlers/rop.go:436-451 | "xR" stands for readable and executable |
| Handlers.LastPieceStart | handlers/rop.go:53 | the left-to-right scan of `strings.Split` ends at a piece start (0 or just past an occurrence) after which `sep` does not occur |
| Handlers.SplitLast | handlers/rop.go:53 | the last piece is a suffix holding no `sep`, and is either the whole string or preceded by an occurrence |
| Handlers.BeforeQuery | handlers/rop.go:54 | the result is the longest prefix without '?' |
| Handlers.RequestPath | handlers/rop.go:53-57 | the path has no '?', is never empty, and is the last piece cut at its first '?', or "/" when that is empty |
| Handlers.SplitLastAfterSep | handlers/rop.go:53 | after an unbordered separator, a piece holding no separator is the last element of the split |
| Handlers.RequestPathOfRoute | handlers/rop.go:52-58 | for a URI made of the route, a path without '?' and an optional query, the path is what follows the route, or "/" when it is empty |
| Handlers.BeforeQueryOf | handlers/rop.go:54 | cutting at '?' drops a query from a path without '?' |
| Handlers.FilesRouteUnbordered | handlers/rop.go:62 | the files route "api/v1/files" has no border, so its occurrences never overlap |
| Handlers.GetFilepath | handlers/rop.go:52-59 | the normaliser is applied to a non-empty path holding no '?' |
| Handlers.FilepathOfRoute | handlers/rop.go:52-59 | for a URI made of the route, a path without '?' and an optional query, the file path is the normalised path, or the normalised root when the path is empty |
| Handlers.RequestPathAfterLastRoute | handlers/rop.go:53-57 | whatever precedes it, the path is what follows the last occurrence of the route, cut at its first '?', or "/" when that is empty |
| Handlers.QueryCanDecidePath | handlers/rop.go:53-57 | a query repeating the route decides the path: "/api/v1/files/tmp?q=api/v1/files/etc" gives "/etc" |
| Handlers.GetPid | handlers/rop.go:310-322 | "" and "0" give the server's own pid and no error; otherwise the parsed value, with "Cannot parse PID." on a parse error |
| Handlers.AsInt64 | handlers/rop.go:458 | `int(pidN)` is the signed 64-bit value congruent to the unsigned one |
| Handlers.ParseRegionsQuery | handlers/rop.go:414-458 | a pid parse error is returned as is; otherwise an access error is returned, or the query with the pid as `int` and the access flags |

## Left out

- gcc-6.4.0/libstdc++-v3/testsuite/special_functions/02_assoc_legendre/compile.cc: a compile-only overload probe for floating-point special functions, with no logic of the tool.
- lib/GadgetsFromProcess.go and lib/DisassembleFile.go are not part of this model. They are process tracing, memory reading and file I/O around a foreign gadget search.
- `OperateOnGadgets` is not part of this model. Its callbacks are the input event sequence, and the hard and soft errors it returns pass through `Fingerprint` untouched.
- HTTP dispatch, JSON encoding, `os.Stat`, `filepath.Walk`, logging and `os.Getpid` are left out. The own pid is a parameter.
- `x86asm.Decode` and `Inst.String` are a parameter. `GadgetDecoder` requires that the decoder never reports a zero-length instruction, because with one the Go loop would not terminate.
- `InstructionDecoder`: a length beyond the input is treated as the slicing panic. Go would accept a length up to the slice's capacity, which the model does not track.
- `NormalizePath` and `strconv.ParseUint` are abstract function parameters.
- Handlers.ToUpper: upper-cases ASCII letters only. Go's Unicode case mapping of other characters does not change the verdict, since such characters are rejected either way.
- Go nil slices and maps are modelled as empty or absent. A fingerprint never stores an empty list (`FingerprintWellFormed`), so `old.Gadgets[sig] == nil` is read as "sig is absent".
- Map iteration order is not fixed. The order of the removed, shared and added regions is whatever the loop chose, named by ghost sequences.
- Fingerprints.GadgetDisplacements: when an address is filed under several signatures, the entry is that of one of them. Which one depends on map order.
- Handlers.GetFilepath: requires a non-empty route. The handlers only pass the literal "api/v1/files", and `strings.Split` with an empty separator splits into characters, which is not modelled.
- "Neither fingerprint is modified" holds by value semantics: every comparison takes and returns values.
- The numeric values of the memaccess flags are not modelled. Access is a set of four flags.
