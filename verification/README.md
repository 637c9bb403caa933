# Verified models of the OpenOmega trace, container and capture tools

This project models the bounded validators, parsers and scanners under `tools/` and proves what
their documentation and tests promise of them: completeness of a greedy feasibility test, exact
inverses of parsers, streaming scans that agree with whole-file scans, state machines that agree
with declarative layouts, and safety of a concurrent capture over every interleaving.

`dafny verify dfyconfig.toml` checks everything.

How the files build on each other:

- `Options`, `Bytes`, `Sums`, `Cardinality`: shared vocabulary.
- `IntervalTransport`, `VumReadTrace`, `VumReadValidator`, `VumReadExact`: the VUM read-trace validator.
  The greedy earliest-deadline-first test is complete by an exchange argument over an existential
  matrix; no report of a real trace is rejected; the code decides exactly the declarative rules; and
  these hold exactly when one matrix on the report's own fields executes everything.
- `Fields`, `Codecs`: readers paired with the printers they invert, and combinators that keep
  the pairing.
- `PhaseTimeline`, `PhaseTemporal`, `PhaseTerminal`, `PhaseTables`, `PhaseFragment`: the phase
  fragment, from bytes to the lifecycle stack over the merged timeline. `PhaseExact`, `PhaseBytes`,
  `PhaseTrace`: what an accepted fragment is on its row fields, at its byte offsets, and both.
- `VumLayout`, `VumChain`, `VumPayload`, `VumImage`: the one-pass VUM payload contract, as two machines
  run side by side, the chain they check read as one list, and files written out part by part.
- `NameTable`, `Hog`, `HogImage`, `MemberNames`, `HogAggregate`, `HogScan`, `HogCells`, `HogWalk`: HOG
  directories, the fixed-memory precheck, the recursive budgeted scan, and what each of its counters
  counts.
- `SoModule`, `SoImage`: script modules. `Pop`, `PopImage`, `PopMarkers`: terrain prefix and marker scan.
  `TdxBlock`, `TdxExact`: one texture block.
- `Numbering`, `TransitionTrace`, `SiteEvents`, `TraceExact`: first-appearance numbering and front-end
  traces.
- `BoundedCapture`: two reader threads under one byte budget, as a state machine.

Methods follow the loops and fields of the source and are proved against specification functions
or predicates; the lemmas are about those. The modules whose names end in `Exact`, `Image`, `Bytes`,
`Trace`, `Cells` and `Walk` state once more what a validator accepts and reports, on raw fields
and literal offsets, and prove both directions. A `seq<Byte>` stands for file contents, a result of
`None` for any of the source's exceptions. Where a check of the source can never fire, a lemma
says so.

## Model

| member | source | states |
|---|---|---|
| IntervalTransport.ValidateIntervalExecutionFeasibility | tools/validate_vum_read_trace.py:246-290 | the loop returns normally exactly when some nonnegative site-by-offset matrix keeps every site inside its interval, meets every demand and fills every capacity |
| IntervalTransport.FillOffset | tools/validate_vum_read_trace.py:273-284 | the capacity loop of one offset keeps the question "is a transport possible" unchanged, and rejects only when none is |
| IntervalTransport.ReleaseSites | tools/validate_vum_read_trace.py:266-269 | exactly the sites whose minimum has been reached are in the heap while they owe executions |
| IntervalTransport.SortSites | tools/validate_vum_read_trace.py:261 | the pending list is a permutation of the sites in the tuple order of `sorted` |
| VumReadExact.IntervalOrderIsLexicographic | tools/validate_vum_read_trace.py:261 | the order of the pending list is the lexicographic order of the four fields of an interval |
| IntervalTransport.Exchange | tools/validate_vum_read_trace.py:253-256 | when a site has the earliest deadline of all that can use an offset, any transport can be traded into one that gives that site as much there as it can take |
| IntervalTransport.AssignKeepsFeasibility | tools/validate_vum_read_trace.py:277-282 | one greedy assignment is possible without losing a transport if and only if one existed before |
| IntervalTransport.UnfillableColumn | tools/validate_vum_read_trace.py:275-279 | an offset with capacity left and nobody to serve it admits no transport |
| IntervalTransport.StrandedSite | tools/validate_vum_read_trace.py:286-290 | a site with demand left and no later offset in its interval admits no transport |
| VumReadTrace.NoFalseRejection | tools/validate_vum_read_trace.py:293-442 | a report tabulated from any execution matrix within the tracer's capacities passes the EE checks, every site check, the extrema demands, the totals and the interval test |
| VumReadTrace.RangeCapacity | tools/validate_vum_read_trace.py:377-379 | aligned distinct offsets of one width in a range are at most the reachable span, so that check never rejects a real site |
| VumReadTrace.NeedIsMet | tools/validate_vum_read_trace.py:401-418 | a site's real executions at each key are at least what the extrema accounting demands of it |
| VumReadTrace.WidthIsFeasible | tools/validate_vum_read_trace.py:437-442 | the cells of one width of a real matrix form a transport for that width's offsets and intervals |
| VumReadTrace.TotalsAgree | tools/validate_vum_read_trace.py:435-436 | row sums and column sums of a real matrix give the same total |
| VumReadValidator.ValidateEeReads | tools/validate_vum_read_trace.py:293-320 | the loop accepts exactly bounded, aligned, strictly sorted rows whose sums fit 64 bits, and returns the per-width totals and the total |
| VumReadValidator.GroupByWidth | tools/validate_vum_read_trace.py:340-348 | the per-width dictionaries hold the offsets, executions and prefix sums of exactly the rows of that width |
| VumReadValidator.CheckSiteRow | tools/validate_vum_read_trace.py:350-400 | bisection and prefix sums decide the declarative site rules: counts of observed offsets and executions inside the site's range |
| VumReadValidator.AddNeeds | tools/validate_vum_read_trace.py:401-418 | the dictionary of demands grows at every key by exactly that site's demand |
| VumReadValidator.ScanSites | tools/validate_vum_read_trace.py:350-430 | the row loop rejects only unacceptable tables and otherwise leaves exact demands, totals and intervals |
| VumReadValidator.CheckIntervals | tools/validate_vum_read_trace.py:437-442 | the interval tests of all widths decide feasibility of every width |
| VumReadValidator.ValidateAnonymousSites | tools/validate_vum_read_trace.py:323-442 | the validator accepts exactly the site tables the declarative rules accept |
| VumReadExact.AcceptedHolds | tools/validate_vum_read_trace.py:323-442 | given accepted EE reads, the declarative site rules hold exactly when every row summarises some executions, the rows are in order and few enough, one matrix on the rows' own fields executes all of them inside the sites' ranges, and the demands fit |
| VumReadExact.FeasibleExecutes | tools/validate_vum_read_trace.py:428-442 | the interval tests of all widths together give one matrix whose rows add up to the sites' executions, whose columns add up to the reads' counts, and which is zero outside the sites' widths and ranges |
| VumReadExact.RowIsSummary | tools/validate_vum_read_trace.py:350-400 | the rules of one row hold exactly when some counts per read have the row's sum, number of distinct offsets, least and greatest offset and loop flag |
| VumReadExact.NeedIsLeast | tools/validate_vum_read_trace.py:401-418 | what the extrema accounting demands of a read is the least any executions summarised by the row can have there |
| VumReadExact.ReadsExactly | tools/validate_vum_read_trace.py:293-320 | accepted EE reads are exactly aligned reads of 1, 2, 4, 8 or 16 bytes inside the span in strict order, whose counts fit 64 bits together |
| VumReadExact.ReadsApart | tools/validate_vum_read_trace.py:306-317 | accepted reads lie inside the span, and two reads of one width share no byte |
| VumReadExact.TracerOrderIsLexicographic | tools/validate_vum_read_trace.py:420-427 | the order of the site rows is the lexicographic order of five fields |
| PhaseTimeline.MachineIffNested | tools/assemble_frontend_phase.py:500-543 | the stack pass succeeds exactly when every invocation is entered and exited once where it says, intervals never cross, parents and submissions name the innermost open invocation, and nesting stays within the limit |
| PhaseTemporal.RetainTemporal | tools/assemble_frontend_phase.py:481-498 | the slot array becomes the timeline, or the sequence numbers do not permute 1..n |
| PhaseTemporal.TimelineIffPermutation | tools/assemble_frontend_phase.py:484-498 | a merged timeline exists exactly when the sequence numbers permute 1..n |
| PhaseTemporal.NoGapLeft | tools/assemble_frontend_phase.py:497-498 | after all rows found a free slot no slot is empty, so the gap check never fires |
| PhaseTemporal.ValidateChronology | tools/assemble_frontend_phase.py:500-543 | the pass over the timeline accepts exactly monotone frames and properly nested lifecycles |
| PhaseTemporal.ValidatePrimitives | tools/assemble_frontend_phase.py:564-581 | the loop accepts exactly positive ranges that tile from zero to at most 2^32 |
| PhaseTemporal.PrimitiveHasOneOwner | tools/assemble_frontend_phase.py:577-581 | every primitive below the total lies in exactly one submission's range |
| PhaseTemporal.ValidateMemberships | tools/assemble_frontend_phase.py:583-613 | the loops accept exactly ordered memberships that map every submission to one later submitted draw and reach every submitted draw |
| PhaseTemporal.MembershipsCount | tools/assemble_frontend_phase.py:591-597 | accepted memberships are as many as submissions, and the counts per draw add up to that |
| PhaseTemporal.SkippedDrawUnclaimed | tools/assemble_frontend_phase.py:612-613 | a skipped draw has no memberships by then, so its second check never fires |
| PhaseTemporal.ValidateTemporalModel | tools/assemble_frontend_phase.py:455-615 | the validator accepts exactly permuted, nested, tiled and totally attributed traces |
| PhaseTemporal.LaterChecksNeverFire | tools/assemble_frontend_phase.py:545-576 | once the stack pass has succeeded, even for a trace rejected later, the lifecycle, containment and frame checks that follow it hold; the frame check at 605-607 holds of every membership that passes the two checks before it |
| PhaseExact.TemporalExactly | tools/assemble_frontend_phase.py:455-615 | a trace is accepted exactly when conditions on the fields of its rows hold, without a timeline, marks or a stack |
| PhaseExact.CoverIsPermutation | tools/assemble_frontend_phase.py:481-498 | the sequence numbers permute exactly when those of the three tables lie in 1..n and differ within and across tables |
| PhaseExact.MonotoneIsFollowing | tools/assemble_frontend_phase.py:510-512 | frames grow along the timeline exactly when, of any two rows of any two of the three tables, the later one is not in an earlier frame |
| PhaseExact.ChronologyIsNesting | tools/assemble_frontend_phase.py:500-543 | the chronology is valid exactly when frames follow and each invocation's two events, parent and submissions are where its fields say, never crossing and within the depth |
| PhaseExact.TilingIsFollowing | tools/assemble_frontend_phase.py:564-581 | primitives tile exactly when every range starts where the previous one ends, the first at zero and the last ending at 2^32 at the latest |
| PhaseExact.MembershipsClaim | tools/assemble_frontend_phase.py:583-613 | memberships are valid exactly when they are in producer order, name every submission once and every submitted draw, and each draw was submitted and comes later |
| PhaseTerminal.ValidateCounts | tools/assemble_frontend_phase.py:357-388 | accepted exactly when all capacities, discovered counts and derived charges hold and the counts imply exactly the input's length |
| PhaseTerminal.ValidateTerminal | tools/assemble_frontend_phase.py:391-452 | accepted exactly when commit state, counters, frames and status agree, the status being that of the first nonzero counter |
| PhaseTerminal.PrecedenceIsFirst | tools/assemble_frontend_phase.py:427-442 | the declarative precedence names exactly the status of the first nonzero counter |
| PhaseTerminal.StatusIsDetermined | tools/assemble_frontend_phase.py:281-289 | counters and commit state determine the status, and the completeness flag of an accepted record says no more than that it was committed |
| PhaseTables.ReadTable | tools/assemble_frontend_phase.py:668-777 | a row loop returns the table exactly when the bytes hold the counted rows and every row passes its checks |
| PhaseTables.TablesAreChecked | tools/assemble_frontend_phase.py:674-777 | the row checks establish everything the temporal model takes for granted |
| PhaseTables.FramesAreRetained | tools/assemble_frontend_phase.py:614-615 | the row checks already bound every frame, so the last frame check on draws never fires |
| PhaseTables.FieldsOfRowsOf | tools/assemble_frontend_phase.py:668-777 | dense ordinals, lane and reserved fields are forced: an accepted table is the one its typed rows print to |
| PhaseFragment.ParsePhaseFragment | tools/assemble_frontend_phase.py:618-805 | the parser accepts exactly the printed forms of valid traces, and returns a valid trace that prints to the input |
| PhaseFragment.PrintIsInjective | tools/assemble_frontend_phase.py:618-805 | no two valid traces print alike, so parsing a printed trace returns that very trace |
| PhaseFragment.PrintThenParse | tools/assemble_frontend_phase.py:632-791 | the printed form of any valid trace is read back field by field into that trace |
| PhaseFragment.ParseThenPrint | tools/assemble_frontend_phase.py:632-791 | an accepted byte string is determined by the trace it parses to |
| PhaseFragment.ReadHeader | tools/assemble_frontend_phase.py:632-651 | the sequential header reads take exactly a printed header off the front |
| PhaseFragment.HeaderTaken | tools/assemble_frontend_phase.py:632-651 | a header is read exactly where its printed form stands |
| PhaseFragment.PrintLength | tools/assemble_frontend_phase.py:384-388 | a printed trace has exactly the length the counts imply, with the row widths the length check uses |
| PhaseBytes.EveryFieldStands | tools/assemble_frontend_phase.py:632-791 | every header word and row field of a printed trace stands at its absolute offset, low byte first, with 4, 24, 21, 24, 17 and 8 bytes a row |
| PhaseBytes.FileIsUnique | tools/assemble_frontend_phase.py:632-791 | no other file holds the same fields at those offsets |
| PhaseTrace.ValidExactly | tools/assemble_frontend_phase.py:357-452 | a trace is valid exactly when its own numbers are: digests not zero, counts within capacities and charges, a status named by the first counter that is not zero, dense and ordered rows with references in range, and one well-nested run |
| PhaseTrace.AcceptedExactly | tools/assemble_frontend_phase.py:618-805 | a byte string is the print of a valid trace exactly when it holds, field by field at literal offsets, a trace whose numbers are valid |
| Fields.Reader.Take | tools/assemble_frontend_phase.py:312-322 | a read returns the next bytes and moves past them, or fails without moving when they are not there |
| Fields.RowTaken | tools/assemble_frontend_phase.py:317-328 | reading fields of fixed widths succeeds exactly on their packed bytes |
| Bytes.ByteWeighs | tools/assemble_frontend_phase.py:327-328 | the k-th byte of a word weighs 256^k: the low byte stands first |
| VumLayout.BlockMachine | tools/vum_material_catalog_contract.py:262-293 | the T state variables run through, with the right count, exactly when the T records form one block of strictly increasing later Q targets |
| VumLayout.PairMachine | tools/vum_material_catalog_contract.py:294-373 | the remaining state variables accept exactly alternating pairs whose payloads tile the middle region and whose references form one interleaved increasing chain |
| VumChain.ChainIsOneList | tools/vum_material_catalog_contract.py:294-373 | the link-by-link chain is the same as payloads of observed sizes tiling the middle region and one strictly increasing list of all references, from sixteen bytes into the final region to its tail |
| VumChain.MiddleByteHasOneOwner | tools/vum_material_catalog_contract.py:294-373 | every byte of the middle region lies in exactly one payload, and payloads hold no other byte |
| VumPayload.ValidateVumPayloadLayout | tools/vum_material_catalog_contract.py:160-389 | the one-pass validator accepts exactly the clean layouts, never reading outside the buffer, and reports the block start and the number of grouped pairs |
| VumPayload.ScanRecords | tools/vum_material_catalog_contract.py:248-344 | the loop runs both machines through, or one of them is stuck |
| VumPayload.TargetsWithinPairs | tools/vum_material_catalog_contract.py:265-289 | an accepted layout has at most as many targets as pairs |
| VumImage.HeaderExactly | tools/vum_material_catalog_contract.py:160-236 | a file passes the header checks exactly when it is some plan written out part by part, each count and position at its own word; the checked header says what was written |
| VumImage.AcceptedIsArranged | tools/vum_material_catalog_contract.py:248-389 | a written file is accepted exactly when its records are one block of ascending targets among alternating pairs, and the pairs' payloads and references are one list each |
| VumImage.ReportSays | tools/vum_material_catalog_contract.py:374-389 | the report names the counts and positions that were written, and counts as grouped exactly the pairs whose payload is not 16 bytes long |
| NameTable.PrecheckNameTableShape | tools/measure_frontend_hog_topology.py:453-517 | for every chunk size the fixed-memory scan accepts exactly the tables that strip and split into the expected number of names, none too long |
| NameTable.ScanDecides | tools/measure_frontend_hog_topology.py:472-517 | the counters after the last byte decide the stripped and split table |
| NameTable.NulChunk | tools/measure_frontend_hog_topology.py:481-484 | counting an all-NUL chunk at once is reading its bytes one by one |
| NameTable.TextChunk | tools/measure_frontend_hog_topology.py:485-496 | testing once after a chunk without NULs is testing after every byte |
| Hog.RangeIsZero | tools/fingerprint_assets.py:89-97 | for every block size the loop decides whether the range is present and zero |
| Hog.ParsersAgree | tools/hog.py:30-69 | the whole-file parser accepts exactly what the span parser accepts without padding and within its entry limit, with equal entries |
| Hog.EntriesTile | tools/fingerprint_assets.py:104-147 | accepted entries tile the payload region without gap or overlap, and everything behind them is zero padding |
| Hog.BuildParses | tools/fingerprint_assets.py:104-147 | a directory built from names without NULs, the last one nonempty, parses anywhere in a file and with any zero padding to the same names and extents |
| Hog.ParsesExactly | tools/fingerprint_assets.py:104-147 | a span of any file is accepted, with a given directory, exactly when the head printed for some tag, names, offsets and name padding stands at its front, room for the payloads follows and only zero bytes are behind them |
| HogImage.ParsesWritten | tools/fingerprint_assets.py:104-147 | a span is accepted, with a given directory, exactly when some tag, names, payload sizes and padding written out word by word stand at its front, the payloads fit, only zeros follow, and the directory lists the names with the running sums of the sizes |
| Hog.ParsedIsBuilt | tools/fingerprint_assets.py:104-147 | an accepted span that lies within the file is some built directory followed by zero bytes |
| Hog.NamesRoundTrip | tools/fingerprint_assets.py:129-132 | names without NULs, joined with NULs and padded, survive strip and split exactly when there are none or the last one is nonempty |
| Hog.ListEntries | tools/hog.py:55-58 | the entry loop lists all entries, or some name is not ASCII |
| MemberNames.AcceptedByComponents | tools/measure_frontend_hog_topology.py:402-426 | a name is accepted exactly when its length is within the limit and every component is plain; the tests for a leading slash and a drive letter reject nothing else |
| MemberNames.AcceptedExactly | tools/measure_frontend_hog_topology.py:402-426 | a name is accepted exactly when its length fits, every character is printable and no colon, and nothing between its separators is empty, one dot or two dots |
| MemberNames.NormalCharacters | tools/measure_frontend_hog_topology.py:411-426 | the normal form has every separator as a slash, every small letter as its capital, and every other character as it is |
| MemberNames.NormalComponents | tools/measure_frontend_hog_topology.py:411-426 | the components of the normal form are the upper-cased components of the name, one for one, and all plain |
| MemberNames.ComponentsCut | tools/measure_frontend_hog_topology.py:411-415 | the components hold no slash and joined by slashes give the text back |
| MemberNames.CollisionIsLikeness | tools/measure_frontend_hog_topology.py:603-605 | two accepted names collide exactly when they agree byte for byte up to letter case and slash direction |
| MemberNames.NormalizeIsIdempotent | tools/measure_frontend_hog_topology.py:402-426 | a normalised name is its own normal form |
| MemberNames.SuffixIsCut | tools/measure_frontend_hog_topology.py:429-434 | a name has an extension and a stem exactly when its last component has a dot with text on both sides of the last one, and that dot is the only possible cut |
| MemberNames.GroupsHoldWhatWasSeen | tools/measure_frontend_hog_topology.py:598-618 | the stem groups hold exactly the approved extensions seen with each stem |
| MemberNames.OneGroupPerStem | tools/measure_frontend_hog_topology.py:617-618 | no stem has two groups, as a dictionary has one entry for a key |
| MemberNames.GroupsStandForStems | tools/measure_frontend_hog_topology.py:617-618 | the groups that hold two given extensions are those of the stems seen with both |
| HogAggregate.MemberConserves | tools/measure_frontend_hog_topology.py:609-622 | counting a member keeps members = approved + other = sum over extensions, categories, buckets and buckets by category |
| HogAggregate.ArchiveConserves | tools/measure_frontend_hog_topology.py:587-594 | counting an archive keeps archives = sum over depths = sum over extent families = roots + nested |
| HogAggregate.PairsConserve | tools/measure_frontend_hog_topology.py:624-631 | counting the extension pairs of a stem keeps the pair total equal to the sum of the pair counts, and changes nothing else |
| HogAggregate.Aggregate.AddGroup | tools/measure_frontend_hog_topology.py:624-631 | the combination loops leave the counters of the specification fold over the pairs |
| HogAggregate.GroupCountsPairs | tools/measure_frontend_hog_topology.py:627-631 | a stem's group adds one to the cell of every pair of its extensions, smaller first, and leaves every other cell as it was |
| HogAggregate.GroupCountsAllPairs | tools/measure_frontend_hog_topology.py:624-631 | a group of n extensions adds n(n-1)/2 to the pair total, and one to the group total when n is at least two |
| HogCells.MembersCells | tools/measure_frontend_hog_topology.py:437-441 | counting a directory's members adds to every cell of the report the number of members of that extension, category and size range |
| HogCells.ExtensionExactly | tools/measure_frontend_hog_topology.py:429-434 | a name has an approved extension exactly when it ends with that text in either case behind something that is not a slash; the stem is what stands before it |
| HogScan.ScanBudget.Charge | tools/measure_frontend_hog_topology.py:166-207 | every charge either fits its limit or ends the scan, and no limit is ever passed |
| HogScan.BoundedHog | tools/measure_frontend_hog_topology.py:520-576 | the header and name-table prechecks reject nothing but spans that fail to parse or exceed a capacity |
| HogScan.ScanArchive | tools/measure_frontend_hog_topology.py:579-635 | the recursion ends by the depth bound, keeps every budget within its limit even when it fails, and otherwise leaves exactly the counters of the preorder walk |
| HogScan.ScanConserves | tools/measure_frontend_hog_topology.py:579-635 | a finished scan counted one archive more than .hog members, all nested but a root, and as many members as entries were charged |
| HogScan.DirectoryCountsStems | tools/measure_frontend_hog_topology.py:598-631 | a directory adds to the cell of two extensions the number of stems its members show with both |
| HogScan.ScanInput | tools/measure_frontend_hog_topology.py:638-650 | succeeds exactly when the scans of all roots in turn do, with their state; then archives = roots + nested = charged archives, .hog members = nested, members = charged entries, and all sums agree |
| HogWalk.ScanIsWalk | tools/measure_frontend_hog_topology.py:579-635 | the recursive scan of an archive succeeds exactly when its preorder walk stays within the capacities, and leaves the budget and the counters of that walk |
| HogWalk.ReportCounts | tools/measure_frontend_hog_topology.py:638-650 | every cell of the finished report counts the members, archives or stems of the walk over all roots that it is meant for |
| Codecs.ThenSound | tools/inspect_so.py:140-212 | reading one value and then another whose layout depends on it inverts printing one behind the other, and keeps word alignment |
| Codecs.CountedSound | tools/inspect_so.py:156-212 | reading a count and that many values inverts printing them, and keeps word alignment |
| SoModule.Reader.LpBytes | tools/inspect_so.py:55-71 | padding computed from the absolute offset is padding computed from the length, and the offset is word-aligned again afterwards |
| SoModule.StringSound | tools/inspect_so.py:55-71 | a stored string is read exactly where length, bytes, terminator and zero padding stand, and fills whole words |
| SoModule.ModulesSound | tools/inspect_so.py:140-212 | a module is read exactly from its own serialisation, which is whole words |
| SoModule.ParseModule | tools/inspect_so.py:140-212 | the parser accepts exactly serialised modules with nothing behind them, and its six sections are word-aligned, contiguous, cover the file and hold the serialised parts |
| SoModule.AcceptedExactly | tools/inspect_so.py:140-212 | a file is accepted exactly when it is the serialisation of a valid stored module |
| SoModule.SerialiseThenParse | tools/inspect_so.py:140-212 | parsing the serialisation of any module gives the module back, whatever its literals |
| SoModule.ModuleAgain | tools/inspect_so.py:55-71 | a valid stored module is recovered from its texts and literals exactly when no name in it is stored as no bytes |
| SoModule.OnlyEmptyIsAmbiguous | tools/inspect_so.py:71 | two stored strings read as the same text only if they are equal or are no bytes and a lone NUL |
| SoImage.WrittenIsAccepted | tools/inspect_so.py:140-212 | a module written out field by field, by functions that name no codec, is accepted and reported without the terminators of its names |
| SoImage.AcceptedIsWritten | tools/inspect_so.py:140-212 | every accepted file is a module written out that way, with printable names, flags of zero or one and lists as long as their counts, and is reported as such |
| Pop.ReadTerrainPrefix | tools/scan_pop_post_terrain.py:171-220 | accepted exactly when a prefix stands at the front within the capacities; the minimum-size precheck rejects nothing else and the tag offset is always word-aligned |
| Pop.ParsePopCellNames | tools/measure_level_tdx_topology.py:382-426 | accepted exactly when the same prefix stands there and the owned names fit, returning the names in order |
| Pop.ParseBoth | tools/measure_level_tdx_topology.py:382-426 | under equal capacities both parsers accept the same files and count the same records |
| Pop.AcceptedIsLong | tools/scan_pop_post_terrain.py:187-191 | every record takes at least twelve bytes, so neither length precheck rejects a parseable file |
| Pop.CountName | tools/scan_pop_post_terrain.py:196-207 | the counting loop finds exactly a terminated printable name within the limit |
| Pop.CollectName | tools/measure_level_tdx_topology.py:403-414 | the collecting loop finds exactly the same names |
| PopImage.WrittenIsAccepted | tools/scan_pop_post_terrain.py:171-220 | a file that starts with the word 70, TER:, a count, that many records and GOB: is accepted, with the records written |
| PopImage.AcceptedIsWritten | tools/scan_pop_post_terrain.py:171-220 | every accepted file starts that way |
| PopImage.ReportIs | tools/scan_pop_post_terrain.py:193-220 | the report counts the records with an alignment byte that is not zero; the owned names are the names in order and their bytes the sum of their lengths |
| PopMarkers.ScanAlignedPublishedMarkers | tools/scan_pop_post_terrain.py:223-251 | for every chunk size divisible by four the scan returns the ordered hits of a whole-file scan, or fails exactly when there are too many |
| PopMarkers.AtMostOneTag | tools/scan_pop_post_terrain.py:30-52 | at any offset at most one published tag stands |
| PopMarkers.OrderIsIrrelevant | tools/scan_pop_post_terrain.py:242-248 | any order of the tag table finds the same tag at every offset |
| PopMarkers.ScanFindsExactly | tools/scan_pop_post_terrain.py:223-251 | the hits are, in ascending order, every offset divisible by four behind the start at which one of the published texts stands, and nothing else |
| PopMarkers.ScanPopStream | tools/scan_pop_post_terrain.py:254-276 | the reported markers are all hits from the GOB tag to the end, the tag itself being the first |
| TdxBlock.MeasureTdxBlock | tools/measure_level_tdx_topology.py:555-732 | the measurement succeeds exactly on blocks that read as a layout, and the plane bytes it reports are all bytes from the first plane to the stride |
| TdxBlock.StorageIsPartitioned | tools/measure_level_tdx_topology.py:660-679 | every byte from the storage start to the stride belongs to exactly one plane or to the palette slot |
| TdxBlock.TotalSize | tools/measure_level_tdx_topology.py:660-669 | the plane sizes telescope to the stride less the first plane's offset |
| TdxBlock.ObjectsPrecedeStorage | tools/measure_level_tdx_topology.py:681-693 | an object record clear of all planes and the slot ends at or before the storage start |
| TdxBlock.AcceptedBlock | tools/measure_level_tdx_topology.py:577-693 | in an accepted block every object record, be it the only one, ends at or before the storage start, and no two overlap |
| TdxBlock.ImplicitZeroIffCut | tools/measure_level_tdx_topology.py:695-726 | the implicit-zero flag of an accepted block says exactly whether the stride exceeds the available bytes |
| TdxBlock.ElementLimitImplied | tools/measure_level_tdx_topology.py:547-552 | the product check of the plane size can never fire after the quotient check |
| TdxExact.AcceptedExactly | tools/measure_level_tdx_topology.py:547-726 | a block is accepted exactly when its own bytes say so: records at the sums of base and pointer words, transfer codes in the low six bits of one byte, planes of 32, 24, 8 or 4 bits an element rounded up to bytes, one gapless storage, and a cut only in a known family |
| Numbering.NumberedIsNormalized | tools/validate_frontend_trace.py:287-293 | numbering any sequence by first appearance gives a normalised sequence, with equal neighbours exactly where the sequence has them |
| Numbering.NormalizedIsCanonical | tools/validate_frontend_trace.py:287-293 | two normalised sequences with the same equality pattern are identical |
| TransitionTrace.ValidateTransitionOrdinals | tools/validate_frontend_trace.py:263-296 | accepted exactly when counts, ranges and frames hold and the ordinals are their own first-appearance numbering without equal neighbours |
| TransitionTrace.AllNormal | tools/validate_frontend_trace.py:295-296 | once a row was read ordinal zero has been introduced, so the last check never fires |
| TransitionTrace.AcceptedAreNumberings | tools/validate_frontend_trace.py:287-293 | the ordinals of accepted rows are exactly the numberings of some state sequence without equal neighbours |
| TransitionTrace.AbsoluteTransitionShape | tools/analyze_frontend_trace.py:94-103 | the accumulated shape lists every row with its absolute frame |
| TransitionTrace.ShapeDeterminesRows | tools/analyze_frontend_trace.py:94-103 | equal shapes come from equal rows |
| TransitionTrace.FirstTransitionDivergenceFrame | tools/analyze_frontend_trace.py:106-117 | none exactly for equal shapes, and otherwise the least frame up to which the histories differ |
| TransitionTrace.ValidateSignatures | tools/validate_frontend_trace.py:358-370 | accepted exactly when every repeat equals its primary report in all its parts and some action's transitions differ from those of idle |
| TransitionTrace.SomeActionDiverges | tools/validate_frontend_trace.py:364-370 | every accepted bundle has an action with a divergence frame |
| SiteEvents.ValidateSiteEvents | tools/validate_frontend_trace.py:205-260 | accepted exactly when sites are numbered by first appearance, keep one class, rows are ordered and the class totals match |
| SiteEvents.SameFrameOrdered | tools/validate_frontend_trace.py:238-244 | rows of the same absolute frame are strictly ordered, not only neighbours |
| TraceExact.NormalizedExactly | tools/validate_frontend_trace.py:287-293 | numbers are given by first appearance exactly when none is used before its predecessor |
| TraceExact.TransitionsExactly | tools/validate_frontend_trace.py:263-296 | transition rows are accepted exactly when conditions on their own fields and the sum of their deltas hold |
| TraceExact.SiteEventsExactly | tools/validate_frontend_trace.py:205-260 | site events are accepted exactly when conditions on their own fields, the sum of their deltas and the sums of their counts by class hold |
| TraceExact.BundleExactly | tools/validate_frontend_trace.py:358-370 | a bundle is accepted exactly when its ten reports repeat in pairs and one of four actions moves unlike idle |
| BoundedCapture.RunKeepsInv | tools/probe_native_levels.py:278-378 | the invariant on buffers, budget, flags and termination holds at every state of every interleaving |
| BoundedCapture.CaptureIsSafe | tools/probe_native_levels.py:276-378 | at every moment the captured bytes are the two buffers and within the limit, the tree is killed at most once, and a returned result has lost nothing that was read |
| BoundedCapture.CaptureIsExact | tools/probe_native_levels.py:278-297 | after both readers end, each buffer is a prefix of its pipe, and the exceeded flag is set exactly when more was read than the limit |
| BoundedCapture.ReportIsDecided | tools/probe_native_levels.py:340-378 | the outcome of a timely capture depends only on how many bytes were read |
| BoundedCapture.JoinDecides | tools/probe_native_levels.py:340-378 | whatever the interleaving, the join reports one of five outcomes, decided by the kill, the readers, the wait and the bytes received; a timeout hands over what was kept of each pipe under its own name |
| BoundedCapture.OutcomeIsDecided | tools/probe_native_levels.py:317-378 | every report of every run is decided by how the wait ended and by the state in which the join ended |
| BoundedCapture.EveryInputIsReported | tools/probe_native_levels.py:317-378 | for all bytes of the two pipes and either end of the wait some run reads both pipes to their ends and reports |
| BoundedCapture.SharedCapture.Retain | tools/probe_native_levels.py:288-294 | the critical section extends one buffer by what fits, keeps the budget equal to both lengths, and says whether anything was dropped |

## Left out

- JSON decoding, key order and type checks of rows: rows are taken as decoded values; only the bounds on integers are kept.
- Exception categories and messages: a rejection is `None` or `false`; only accept versus reject is modelled.
- Files, streams and snapshots: a stream is the byte string it delivers, reads at its end fail; short reads that deliver fewer bytes than asked and concurrent modification are not modelled.
- SHA-256, hashes of schemas, histograms and the other summary statistics of `inspect_so.py`: counters and digests over values already parsed.
- IntervalTransport.HeapPush: `heapq` is modelled by its observable behaviour, the least entry comes out first, as a sequence kept in order; `sorted` and `bisect` are modelled by what they return.
- VumReadValidator.GroupByWidth: the three per-width dictionaries share their keys and are kept as one map.
- VumReadValidator.ValidateAnonymousSites: acceptance gives one matrix that executes everything and, row by row, counts with the reported distinct offsets; it is not claimed that one matrix does both, which the source does not test either.
- Group and site rows of the read trace hold unbounded integers; the 64-bit limits are the explicit checks of the source.
- PhaseTables.ReadTable: the six row loops of the parser share one loop over the table's field widths, and the checks of a row are made after all its fields are read.
- PhaseTerminal.ValidateTerminal: status and commit words outside their enumerations are rejected where the words are decoded.
- Assembly joins, manifests, site-map bindings and report writing around the phase fragment: they compare digests and print fixed documents.
- VIF chunks and catalog names of VUM files: the payload contract does not read them.
- HogScan.ScanInput: discovery of root archives and the filesystem budget are left out; roots are given as byte strings.
- HogScan.ScanBudget.Charge: the four charges of one archive are one method; the filesystem charge is not part of this model.
- SoModule.Reader: `seek` is only ever called with the current offset and is left out.
- Pop.ReadTerrainPrefix: `_align_up_4` also rejects offsets within three of 2^64, which no bounded file reaches.
- TdxBlock.MeasureTdxBlock: the header and the bytes available to the block are inputs, and the allow-listed signatures are a parameter; header parsing and pixel scoring are not modelled.
- Reports of a front-end bundle: all parts but the transitions are one opaque value, compared as a whole between repeats; JSON normalisation is not modelled.
- Level, cell and material statistics, corpus fingerprints and retail-file evidence: counters over private data.
- BoundedCapture: process creation, job objects, signals and `process.kill` on a direct child; pipes are abstract byte sources and timeouts may fall anywhere.
- Native code under `native/`: decoders it calls are not part of this model.
