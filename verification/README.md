# Verified models of AAGAM's algorithmic kernels

Dafny models of the self-contained algorithms in this repository, each with the properties
its callers rely on, proved for all inputs. `dafny verify dfyconfig.toml` checks everything.

| file | models |
|---|---|
| `AdvisoryAudit.dfy` | spreading npm advisories over a possibly cyclic `via` graph, and the policy verdict |
| `Crc32.dfy`, `Png.dfy` | the PNG checksum, what damage it detects, and the chunk parser as the exact inverse of a printer |
| `IstCalendar.dfy` | Indian Standard Time dates and delivery slots over the calendar of section 21.4.1 of ECMA-262 |
| `RateLimiter.dfy` | the fixed-window limiter and its guarantees over whole runs |
| `ShellEnv.dfy` | quoting and overlaying production settings, read back by a POSIX shell |
| `OrderPricing.dfy` | pricing an order from incomplete, stale or substituted data |
| `GridGrouping.dfy`, `MilkStats.dfy` | the row groups of the milk grid, and its litres |
| `Cart.dfy` | the shopping cart and its stored copy |
| `CustomerAddress.dfy` | cleaning an address as a canonicalisation |
| `Analytics.dfy` | the dashboard's counts and per-store totals |
| `JsText.dfy` | JavaScript white space and optional values, shared |

Loops and objects that change state in the source are methods and classes here, proved against
functions that say what they compute; expressions in the source are functions. The reference
each result is measured against is defined apart from the code: reachability by paths for the
audit, polynomial division for the checksum, a printer for the parser, the calendar rules day
by day for the dates, the run of requests for the limiter, a shell reader for the quoting.

## What the proofs bring to light

- **Advisory audit.** The script says image-size is the one package for which exceptions are
  accepted (`scripts/verify-dependency-security.js:68-70`). The code does otherwise, and the
  model follows the code: the two advisories expected of image-size are not among the allowed
  ones, so a report that mentions image-size is never passed. Either the package is blocked,
  or its advisories differ from the two expected ones (`AdvisoryAudit.Audit`,
  `AdvisoryAudit.ImageSizeNotAllowed`); `AdvisoryAudit.ImageSizeRefused` is the plainest report.
- **Advisory audit.** A `via` name such as `constructor` that is no package of the report but
  that every JavaScript object answers to is neither unresolved nor known; the script then
  stops with a TypeError. `AdvisoryAudit.Audit` states exactly when;
  `AdvisoryAudit.ConstructorThrows` is a report of one package.
- **Slots.** A negative minute that is not a multiple of 60 lands exactly one hour early,
  because floor and remainder round differently (`IstCalendar.SlotOffsetsExact`, at an input
  `IstCalendar.MinuteBeforeMidnight`). Dates in the years 0 to 99 are misread
  (`IstCalendar.YearFiftyMisread`), and times beyond what a Date can hold are invalid;
  `IstCalendar.SlotDateRoundTrip` has the exact condition for the date to be right.
- **Rate limiter.** 600 requests per window means up to 1199 in some 60 seconds, and no more
  (`RateLimiter.SlidingWindowBound`, `RateLimiter.BoundMet`).
- **Order pricing.** A stored zero is final only beside some amount that is not zero, and the
  stored totals are no such amount (`OrderPricing.ZeroTotalFinal`). A snapshot's zero in rupees
  hides its paise (`OrderPricing.SubtotalFallback`), unlike the order's own.
- **Cart.** An infinite price or quantity does not survive being stored
  (`Cart.ReadBackExact`, `Cart.InfinitePriceLost`); `Cart.RunReadsBack` says which runs bring
  one in.
- **Milk grid.** Two customers whose names compare equal can have their rows interleaved by
  plan, which breaks the row spans (`GridGrouping.SameNameComesApart`);
  `GridGrouping.SortedTilesExactly` has the exact condition.

## Assumptions

- Advisory audit: the report's entries are objects; `via` lists that are missing count as empty.
- Slots: date, day offset and minute are integers.
- Rate limiter: the sliding-window bound takes the clock not to run backwards; the other
  results do not.
- Shell: the reader gives up on whatever would make the shell do more than assign literal
  text (expansions, operators, commands); a base file it reads to the end is called complete.
- Pricing, litres and revenue: arithmetic is exact, not floating point. The same holds for
  finite cart quantities.
- Milk grid: `localeCompare` is a total preorder, and the sort is stable. Quantity labels read
  as non-negative litres or nothing, an empty one as nothing, and a space in front of a label
  makes no difference.
- Address: upper-casing twice is upper-casing once and keeps clean text clean. Lengths count
  characters, which for characters outside the Basic Multilingual Plane is one less each than
  JavaScript counts.

## Model

| member | source | states |
|---|---|---|
| `AdvisoryAudit.SeedMarks` | scripts/verify-dependency-security.js:93-108 | every package starts with exactly the URLs of the advisories in its own via list and the names in it that are neither of the report nor inherited |
| `AdvisoryAudit.AddMissing` | scripts/verify-dependency-security.js:123-134 | the union is built, and growth is reported exactly if something was missing |
| `AdvisoryAudit.Absorb` | scripts/verify-dependency-security.js:120-135 | one dependency's URLs and unresolved names are merged in, and change is reported exactly if there is one |
| `AdvisoryAudit.AbsorbAll` | scripts/verify-dependency-security.js:119-136 | after its turn a package has all its dependencies had, nothing beyond what is reachable, and it throws exactly for an inherited property name |
| `AdvisoryAudit.Pass` | scripts/verify-dependency-security.js:116-136 | one in-place pass gives every package what its dependencies had, never exceeds a fixed point above, and reports change exactly |
| `AdvisoryAudit.Propagate` | scripts/verify-dependency-security.js:112-142 | for every graph, cycles included, at most one pass per package, always ended by a pass without change; the result is exactly the seeds of all reachable packages, and whatever a via list names, in any place of it, has nothing its package lacks |
| `AdvisoryAudit.PassCoversMore` | scripts/verify-dependency-security.js:115-137 | each pass extends the path length up to which all seeds have arrived |
| `AdvisoryAudit.AllCovered` | scripts/verify-dependency-security.js:114-137 | paths of as many nodes as there are packages are enough for everything reachable |
| `AdvisoryAudit.ReachedAbsorbsItself` | scripts/verify-dependency-security.js:110-137 | the union over reachable packages is a fixed point above the seeds |
| `AdvisoryAudit.ReachedIsLeast` | scripts/verify-dependency-security.js:110-137 | it is the least one |
| `AdvisoryAudit.ReachedCarries` | scripts/verify-dependency-security.js:119-136 | in the result every package has all that each package named in its via list has, and its own seeds |
| `AdvisoryAudit.ReachedHasNoMore` | scripts/verify-dependency-security.js:110-137 | and any marks of which that holds have at least as much everywhere |
| `AdvisoryAudit.CompensatedByMarks` | scripts/verify-dependency-security.js:147-154 | the script's test on the collected sets holds exactly if the package reaches no unresolved name, some advisory, and only allowed ones |
| `AdvisoryAudit.CompensatedByPaths` | scripts/verify-dependency-security.js:98-154 | a package passes exactly if, however its via lists are followed, every advisory met is allowed, every name met is known or inherited, and some advisory is met |
| `AdvisoryAudit.FindingByPaths` | scripts/verify-dependency-security.js:144-161 | what is printed for a package is exactly the advisories and the unresolved names met on the way |
| `AdvisoryAudit.SelectAppend` | scripts/verify-dependency-security.js:146-161 | the findings come in report order |
| `AdvisoryAudit.Classify` | scripts/verify-dependency-security.js:144-161 | blocked and compensated packages, in report order, each exactly those the policy says, with exactly what they reach |
| `AdvisoryAudit.ImageSizeNotAllowed` | scripts/verify-dependency-security.js:175-178 | the advisories of the image-size exception are not all allowed |
| `AdvisoryAudit.ImageSizeRefused` | scripts/verify-dependency-security.js:175-195 | a report of image-size alone, with exactly its two advisories, is not compensated |
| `AdvisoryAudit.ConstructorThrows` | scripts/verify-dependency-security.js:120-123 | a package that depends on the name constructor makes the script throw |
| `AdvisoryAudit.Audit` | scripts/verify-dependency-security.js:93-195 | the exact condition for each verdict, a throw being an inherited name in a via list; non-convergence never occurs, and a report that mentions image-size never passes |
| `Crc32.BuildEntry` | scripts/validate-brand-pngs.js:23-26 | a table entry is eight shifts of its index |
| `Crc32.BuildTable` | scripts/validate-brand-pngs.js:20-28 | the table holds the entry of every byte |
| `Crc32.FeedBitDivides` | scripts/validate-brand-pngs.js:25 | a step with 0xEDB88320 is, mirrored, a step of dividing by the generator of section 3.4 of RFC 2083 |
| `Crc32.FeedDivides` | scripts/validate-brand-pngs.js:25 | feeding any bits is, mirrored, polynomial division |
| `Crc32.CrcByFeeding` | scripts/validate-brand-pngs.js:30-34 | the checksum by division is the bit-at-a-time reflected checksum |
| `Crc32.TableStep` | scripts/validate-brand-pngs.js:32 | one table lookup is eight single-bit steps |
| `Crc32.ComputeCrc` | scripts/validate-brand-pngs.js:30-34 | the table-driven loop computes the remainder of polynomial division, for every byte sequence |
| `Crc32.PresetAndComplement` | scripts/validate-brand-pngs.js:30-34 | starting from ones is dividing the message with its first four bytes complemented, and the remainder is complemented, as section 3.4 of RFC 2083 has it |
| `Crc32.IendChecksum` | scripts/validate-brand-pngs.js:30-34 | the checksum of IEND is 0xAE426082 |
| `Crc32.IhdrChecksum` | scripts/validate-brand-pngs.js:30-34 | the checksum of the canonical header chunk is 0xAE5CB555 |
| `Crc32.ShortBitsDetected` | scripts/validate-brand-pngs.js:22-34 | different bit strings of at most 32 bits never leave the same register |
| `Crc32.FeedInjective` | scripts/validate-brand-pngs.js:32 | different registers stay different under the same further bits |
| `Crc32.BurstDetected` | scripts/validate-brand-pngs.js:22-34 | any change within 32 consecutive bits changes the checksum |
| `Crc32.FourByteSpanDetected` | scripts/validate-brand-pngs.js:22-34 | any change within four consecutive bytes changes it |
| `Crc32.LongerBurstMissed` | scripts/validate-brand-pngs.js:22-34 | 33 bits that differ by the generator leave the same register: the bound of 32 is tight |
| `Png.ReadEncoded` | scripts/validate-brand-pngs.js:40-65 | a chunk laid out as in section 3.2 of RFC 2083 is read back, wherever it stands |
| `Png.EncodedRead` | scripts/validate-brand-pngs.js:40-65 | what is read as a chunk is the layout of that chunk, which is well formed |
| `Png.ReadsExactly` | scripts/validate-brand-pngs.js:40-65 | a chunk and the offset behind it are read exactly where that chunk is laid out |
| `Png.ReadChunkRefuses` | scripts/validate-brand-pngs.js:40-57 | a chunk that is not read is refused for the first reason that applies |
| `Png.DamagedChunkRejected` | scripts/validate-brand-pngs.js:53-57 | a burst of up to 32 bits in type or data makes the chunk be refused, with one of three errors |
| `Png.OnlyCanonicalHeader` | scripts/validate-brand-pngs.js:81-100 | exactly one 13-byte header is canonical |
| `Png.ValidateStructure` | scripts/validate-brand-pngs.js:72-131 | a file is accepted with an image exactly if the image is canonical and the file is its encoding; the IDAT data come in order; rejections carry the error of the specification |
| `Png.AcceptsExactly` | scripts/validate-brand-pngs.js:72-131 | parser and printer are inverse to each other |
| `Png.AcceptedBytes` | scripts/validate-brand-pngs.js:10-131 | every accepted file has the same first 33 bytes, its palette and transparency in fixed places, and the same last 12 bytes, all written out |
| `Png.DamagedFileRejected` | scripts/validate-brand-pngs.js:72-131 | a file with a damaged chunk is not accepted, whatever follows the damage |
| `Png.VerdictByGrammar` | scripts/validate-brand-pngs.js:67-131 | on any sequence of sound chunks the verdict, error included, is that of the chunk grammar |
| `IstCalendar.FormulaHolds` | apps/api-gateway/src/checkout/delivery-slots.ts:23 | counting years of 365 and 366 days gives the day number formula of section 21.4.1.3 of ECMA-262 |
| `IstCalendar.MonthTable` | apps/api-gateway/src/checkout/delivery-slots.ts:23 | the day number of the first of every month is the formula for its year plus 0, 31, 59, 90 and so on, and a leap day from March on |
| `IstCalendar.DateByTable` | apps/api-gateway/src/checkout/delivery-slots.ts:14-18 | a day number has exactly the date whose month, by that table, holds it |
| `IstCalendar.DateOfDayOfDate` | apps/api-gateway/src/checkout/delivery-slots.ts:14-18 | the date of a valid date's day number is that date |
| `IstCalendar.DayOfDateOfDay` | apps/api-gateway/src/checkout/delivery-slots.ts:14-18 | every day number is that of its date, which is valid |
| `IstCalendar.NextDayNumber` | apps/api-gateway/src/checkout/delivery-slots.ts:23 | the next date by the calendar rules has the next day number |
| `IstCalendar.AddDaysNumber` | apps/api-gateway/src/checkout/delivery-slots.ts:23 | stepping k dates forward or back moves the day number by k |
| `IstCalendar.SlotInstantExact` | apps/api-gateway/src/checkout/delivery-slots.ts:22-32 | the slot is at its minute after midnight IST k days on, or invalid exactly if some time is out of range |
| `IstCalendar.IstDateExact` | apps/api-gateway/src/checkout/delivery-slots.ts:12-19 | an instant has an IST date exactly if 5 hours 30 minutes later it lies within that day, by formula and table, and a Date can hold it |
| `IstCalendar.SlotByTable` | apps/api-gateway/src/checkout/delivery-slots.ts:22-32 | a slot's instant in milliseconds, by formula and table, or invalid exactly if some time is out of range |
| `IstCalendar.SlotOffsetsExact` | apps/api-gateway/src/checkout/delivery-slots.ts:22-32 | days and minutes add up exactly if and only if the minute is not negative or whole hours |
| `IstCalendar.MinuteBeforeMidnight` | apps/api-gateway/src/checkout/delivery-slots.ts:28-29 | minute -1 of a day is 61 minutes before its midnight |
| `IstCalendar.SlotOffsetsCompose` | apps/api-gateway/src/checkout/delivery-slots.ts:22-32 | j days and then k days are j + k days |
| `IstCalendar.SlotDateRoundTrip` | apps/api-gateway/src/checkout/delivery-slots.ts:12-32 | the IST date of a slot is the date k days on, if and only if no year is misread and the times are in range |
| `IstCalendar.YearFiftyMisread` | apps/api-gateway/src/checkout/delivery-slots.ts:23-26 | a date in the year 50 does not come back |
| `IstCalendar.YearMisread` | apps/api-gateway/src/checkout/delivery-slots.ts:23-26 | a date in the years 0 to 99 is taken for the one 1900 years later |
| `IstCalendar.InstantRoundTrip` | apps/api-gateway/src/checkout/delivery-slots.ts:12-32 | date and minute of an instant, unless its year is one of those misread, lead back to the start of its minute, or are invalid exactly if some time is out of range |
| `IstCalendar.SlotsOrdered` | apps/api-gateway/src/checkout/delivery-slots.ts:4-7 | the default slots of any days follow each other in order and never overlap |
| `IstCalendar.SlotsOfNewYear` | apps/api-gateway/src/checkout/delivery-slots.ts:4-32 | the default slots of a day in milliseconds |
| `RateLimiter.Limiter.constructor` | mobile-web-preview/server.js:62 | no client has a bucket at first |
| `RateLimiter.Limiter.RateLimit` | mobile-web-preview/server.js:63-77 | verdict and new buckets of one request, clients without an address sharing a key |
| `RateLimiter.Limiter.Serve` | mobile-web-preview/server.js:63-77 | a run of requests gets, one by one, the verdicts that the results on runs are about |
| `RateLimiter.BucketMeaning` | mobile-web-preview/server.js:66-71 | the stored bucket is the time of the opening request and the number of requests since, of which at most 600 were admitted |
| `RateLimiter.AdmissionRule` | mobile-web-preview/server.js:67-76 | a request is admitted exactly if at most 600 of its key have come since its window opened |
| `RateLimiter.SlidingWindowBound` | mobile-web-preview/server.js:60-77 | no key gets more than 1199 requests through in any half-open 60 seconds of any run |
| `RateLimiter.BoundMet` | mobile-web-preview/server.js:60-77 | some run gets exactly 1199 through |
| `RateLimiter.Recovery` | mobile-web-preview/server.js:67-70 | however often refused, a key is admitted at its first request 60 seconds or more after its window opened |
| `RateLimiter.KeysIndependent` | mobile-web-preview/server.js:64-69 | a key's verdicts and bucket are what they would be if no other key existed |
| `ShellEnv.QuotedReadsBack` | scripts/prepare-production-env.js:43-45 | the shell reads the quoted form of any string as that string |
| `ShellEnv.QuotesPiecewise` | scripts/prepare-production-env.js:43-45 | every quote becomes four characters and nothing else changes |
| `ShellEnv.LineAssigns` | scripts/prepare-production-env.js:47-51 | an appended line assigns the value to the key and leaves the shell at a line start |
| `ShellEnv.ValueAppended` | scripts/prepare-production-env.js:47-51 | appending a value binds its key to the value without the white space around it, or changes nothing if it is absent or blank |
| `ShellEnv.LineEnded` | scripts/prepare-production-env.js:67 | a line feed after a complete file leaves the shell at a line start with the file's bindings |
| `ShellEnv.CommentLineSkipped` | scripts/prepare-production-env.js:96-98 | a comment line assigns nothing |
| `ShellEnv.BlankOverlaysAssignNothing` | scripts/prepare-production-env.js:94-111 | skipping the overlays when all are blank makes no difference |
| `ShellEnv.Untouched` | scripts/prepare-production-env.js:78-111 | a key without a managed value keeps its base binding |
| `ShellEnv.LastWins` | scripts/prepare-production-env.js:78-111 | the last managed value of a key is the one that counts, trimmed |
| `JsText.TrimExact` | scripts/prepare-production-env.js:48-49 | trimming leaves nothing of a blank text and otherwise the slice from its first to its last character that is no white space |
| `JsText.SpaceCodes` | packages/utils/src/customer-address.ts:42-44 | white space is what sections 12.2 and 12.3 of ECMA-262 list, by code |
| `ShellEnv.NewlinesPiecewise` | scripts/prepare-production-env.js:65 | a carriage return and line feed become a line feed wherever they stand |
| `ShellEnv.NewlinesKept` | scripts/prepare-production-env.js:65 | a text without them stays as it is |
| `ShellEnv.ManagedKeys` | scripts/prepare-production-env.js:78-111 | each of the sixteen keys is bound to its own value, trimmed, or keeps its binding if that is missing; all other keys keep theirs |
| `ShellEnv.PrepareEnvFile` | scripts/prepare-production-env.js:65-111 | it fails exactly for a base of white space; with nothing to manage the base is only ended with a line feed, otherwise it is followed by the header; sourcing the file binds every managed key to its trimmed value and leaves all else as the base has it |
| `OrderPricing.NormalizeOrderPricing` | packages/utils/src/order-pricing.ts:59-184 | all five amounts are non-negative |
| `OrderPricing.StoredBackUnchanged` | packages/utils/src/order-pricing.ts:59-184 | every non-negative pricing, stored as an order without items, is priced as itself, zeros included |
| `OrderPricing.SubstitutedTotal` | packages/utils/src/order-pricing.ts:151-181 | with substitutions the total is the sum of its parts, at least zero |
| `OrderPricing.ReplayDeterminedBy` | packages/utils/src/order-pricing.ts:69-181 | with substitutions and a checkout subtotal, only that, the deltas in any order, fee, discount and tax matter |
| `OrderPricing.SubstitutedSubtotal` | packages/utils/src/order-pricing.ts:78-118 | with substitutions the subtotal is the snapshot's, in rupees or else paise, plus all deltas, at least zero; without one the lines, and without lines the order's own |
| `OrderPricing.DeltasByFields` | packages/utils/src/order-pricing.ts:72-75 | a delta counts in paise, and not at all if it is no number |
| `OrderPricing.OnlyDeltaSumMatters` | packages/utils/src/order-pricing.ts:69-84 | substitutions can be merged or split |
| `OrderPricing.SubstitutionOrderIrrelevant` | packages/utils/src/order-pricing.ts:69-75 | the order of substitutions never changes a price |
| `OrderPricing.OwnAmountsPreferred` | packages/utils/src/order-pricing.ts:106-181 | without substitutions a positive own subtotal or total wins over everything else, each by itself, rupees before paise before totalAmount |
| `OrderPricing.ComponentSources` | packages/utils/src/order-pricing.ts:120-150 | each of fee, discount and tax is the first positive of own rupees, own paise, snapshot rupees, snapshot paise, or zero |
| `OrderPricing.ZeroSubtotalFinal` | packages/utils/src/order-pricing.ts:98-118 | a stored zero subtotal stays zero for every snapshot and items exactly if some own amount other than a total is not zero |
| `OrderPricing.ZeroTotalFinal` | packages/utils/src/order-pricing.ts:159-181 | the same for a stored zero total |
| `OrderPricing.ZeroSubtotalIgnored` | packages/utils/src/order-pricing.ts:98-118 | without such an amount a stored zero subtotal prices as if it were absent |
| `OrderPricing.ZeroTotalIgnored` | packages/utils/src/order-pricing.ts:159-181 | and so does a stored zero total |
| `OrderPricing.SubtotalFallback` | packages/utils/src/order-pricing.ts:78-118 | without a positive own subtotal or a final zero, the snapshot's subtotal counts if positive, its rupees hiding its paise, and otherwise the sum of the lines |
| `OrderPricing.TotalFallback` | packages/utils/src/order-pricing.ts:151-181 | the same for the total, with the sum of its parts as last resort |
| `OrderPricing.ItemFallback` | packages/utils/src/order-pricing.ts:77-181 | with no amounts anywhere, subtotal and total are the sum of the lines |
| `OrderPricing.LineByFields` | packages/utils/src/order-pricing.ts:43-57 | a line costs its positive stored total, rupees before paise, or else quantity times the first unit price that is a number, neither below zero |
| `OrderPricing.LinesByFields` | packages/utils/src/order-pricing.ts:77 | the lines add up |
| `OrderPricing.StaleZerosIgnored` | packages/utils/src/order-pricing.ts:120-150 | a fee, discount or tax stored as zero is as good as none |
| `OrderPricing.UnitsDoNotMatter` | packages/utils/src/order-pricing.ts:30-41 | an order kept in rupees is priced like the same order kept in paise |
| `GridGrouping.CountRows` | apps/admin-dashboard/src/components/MilkDeliveryGrid.tsx:685-686 | the number of rows of every customer |
| `GridGrouping.NumberCustomers` | apps/admin-dashboard/src/components/MilkDeliveryGrid.tsx:687-689 | customers are numbered from 1 in the order of their first rows |
| `GridGrouping.NumbersFollowFirstRows` | apps/admin-dashboard/src/components/MilkDeliveryGrid.tsx:687-689 | the numbers run up to the number of customers in the order of the first rows |
| `GridGrouping.RowGroupMeta` | apps/admin-dashboard/src/components/MilkDeliveryGrid.tsx:684-699 | every row gets its place among its customer's rows, their number, whether it is the first, and the customer's number |
| `GridGrouping.TilesExactly` | apps/admin-dashboard/src/components/MilkDeliveryGrid.tsx:690-698 | the first rows' spans tile the grid with groups numbered in order, exactly if every customer's rows are adjacent |
| `GridGrouping.SortOrderExists` | apps/admin-dashboard/src/components/MilkDeliveryGrid.tsx:673-678 | rows can always be sorted stably by customer name and plan name |
| `GridGrouping.SortedAscends` | apps/admin-dashboard/src/components/MilkDeliveryGrid.tsx:673-678 | sorting keeps all rows; customer names ascend, then plan names, and equal rows stay in order |
| `GridGrouping.SortedTilesExactly` | apps/admin-dashboard/src/components/MilkDeliveryGrid.tsx:671-699 | the rows as sorted tile exactly if no other customer's row sorts between two rows of one customer |
| `GridGrouping.SortedTiles` | apps/admin-dashboard/src/components/MilkDeliveryGrid.tsx:671-699 | they do if each customer has one name and no two customers have names that compare equal |
| `GridGrouping.SameNameComesApart` | apps/admin-dashboard/src/components/MilkDeliveryGrid.tsx:673-699 | two customers of one name can come apart |
| `MilkStats.JoinedLitresAdd` | apps/admin-dashboard/src/components/MilkDeliveryGrid.tsx:219-229 | the litres of joined add-ons are the litres of the add-ons added up, empty labels included |
| `MilkStats.AddOnsRead` | apps/admin-dashboard/src/components/MilkDeliveryGrid.tsx:224-229 | what stands before the first comma is read on its own and the rest added, a part without volume counting nothing |
| `MilkStats.StopsPartition` | apps/admin-dashboard/src/components/MilkDeliveryGrid.tsx:716-735 | delivered and pending stops, and their litres, make up the whole route |
| `MilkStats.RoundingGap` | apps/admin-dashboard/src/components/MilkDeliveryGrid.tsx:736-745 | rounding two parts differs from rounding the sum by at most a thousandth |
| `MilkStats.RoundsToNearest` | apps/admin-dashboard/src/components/MilkDeliveryGrid.tsx:736 | rounding gives the nearest thousandth, ties upwards |
| `MilkStats.OneMoreCell` | apps/admin-dashboard/src/components/MilkDeliveryGrid.tsx:716-734 | a missing, skipped or cancelled cell changes no figure; any other is one stop with its litres, add-ons and cash |
| `MilkStats.TodayStats` | apps/admin-dashboard/src/components/MilkDeliveryGrid.tsx:707-748 | the stops, litres sold and left, and cash of the route; the clamp at zero never takes effect |
| `Cart.CartHook.constructor` | apps/admin-dashboard/src/hooks/useCart.ts:26-45 | the hook starts with what storage holds, with finite prices and quantities, and sound if the stored ids are distinct |
| `Cart.CartHook.Commit` | apps/admin-dashboard/src/hooks/useCart.ts:65-73 | memory and storage both become the normalized cart |
| `Cart.CartHook.Perform` | apps/admin-dashboard/src/hooks/useCart.ts:75-110 | one action's effect on memory and storage |
| `Cart.CartHook.PerformAll` | apps/admin-dashboard/src/hooks/useCart.ts:65-110 | every run of actions keeps ids distinct and non-empty, quantities positive, and storage equal to memory; and unless it brings in an infinity, storage reads back as the cart |
| `Cart.ActionKeepsSound` | apps/admin-dashboard/src/hooks/useCart.ts:65-110 | each action keeps a sound cart sound |
| `Cart.ReadBackExact` | apps/admin-dashboard/src/hooks/useCart.ts:26-42 | a sound cart, stored, reads back as itself exactly if every price and quantity is finite |
| `Cart.ReadBackSound` | apps/admin-dashboard/src/hooks/useCart.ts:26-36 | a stored cart with distinct ids is read as a sound one |
| `Cart.ReadBackNext` | apps/admin-dashboard/src/hooks/useCart.ts:16-36 | a stored item is kept exactly if it has an id and a finite positive quantity, a price that is no finite number read as 0 |
| `Cart.StaysFinite` | apps/admin-dashboard/src/hooks/useCart.ts:65-110 | an action keeps a finite cart finite exactly if it is no new product of infinite price and no infinite quantity for a product in the cart |
| `Cart.RunReadsBack` | apps/admin-dashboard/src/hooks/useCart.ts:26-110 | storage reads back as the cart after every step of a run exactly if no action brings in an infinity |
| `Cart.RunFromStorage` | apps/admin-dashboard/src/hooks/useCart.ts:26-110 | from any stored cart with distinct ids: every run leaves the cart sound, reads back throughout under that condition, and meets it if prices and quantities acted on are finite |
| `Cart.InfinitePriceLost` | apps/admin-dashboard/src/hooks/useCart.ts:38-40 | a product of infinite price, added, does not read back |
| `Cart.AddRaisesTotal` | apps/admin-dashboard/src/hooks/useCart.ts:75-112 | adding a product with an id raises the number of items by exactly one |
| `Cart.AddExact` | apps/admin-dashboard/src/hooks/useCart.ts:75-96 | adding raises an item by one, or appends one with the product's name, price and image, and changes nothing else |
| `Cart.RemoveUndoesAdd` | apps/admin-dashboard/src/hooks/useCart.ts:75-100 | removing a product just added to a cart without it restores the cart |
| `Cart.RemoveExact` | apps/admin-dashboard/src/hooks/useCart.ts:98-100 | removing leaves all other items as they were and none of the id |
| `Cart.RemoveSplits` | apps/admin-dashboard/src/hooks/useCart.ts:98-100 | the item with the id is taken out from wherever it stands |
| `Cart.QuantitySet` | apps/admin-dashboard/src/hooks/useCart.ts:102-108 | a positive quantity changes that quantity and nothing else |
| `Cart.NoQuantityRemoves` | apps/admin-dashboard/src/hooks/useCart.ts:102-108 | a quantity that is not positive, NaN included, removes |
| `CustomerAddress.CleanTextFixed` | packages/utils/src/customer-address.ts:42-44 | cleaning twice is cleaning once, and exactly the clean texts stay as they are |
| `CustomerAddress.CleanTextWords` | packages/utils/src/customer-address.ts:42-44 | a cleaned text is its words with single spaces between them |
| `CustomerAddress.PhoneFixed` | packages/utils/src/customer-address.ts:46-52 | the same for phone numbers |
| `CustomerAddress.FillerIgnored` | packages/utils/src/customer-address.ts:46-47 | white space, brackets and hyphens may stand anywhere in a number |
| `CustomerAddress.PhoneOfBare` | packages/utils/src/customer-address.ts:48-51 | ten digits get +91 in front, twelve that start with 91 a plus, and all else stays |
| `CustomerAddress.PincodeFixed` | packages/utils/src/customer-address.ts:54-56 | the same for pincodes |
| `CustomerAddress.PincodeDigits` | packages/utils/src/customer-address.ts:54-56 | whatever is no digit is dropped, and so is what exceeds six digits |
| `CustomerAddress.BuiltIsCanonical` | packages/utils/src/customer-address.ts:81-148 | every payload built is canonical |
| `CustomerAddress.CanonicalStays` | packages/utils/src/customer-address.ts:81-148 | every canonical payload is built from itself |
| `CustomerAddress.RebuildUnchanged` | packages/utils/src/customer-address.ts:81-148 | a payload fed back into the form is built again unchanged |
| `CustomerAddress.CanonicalExactly` | packages/utils/src/customer-address.ts:81-148 | the payloads that occur are exactly the canonical ones |
| `CustomerAddress.FirstFailure` | packages/utils/src/customer-address.ts:108-129 | a payload is built exactly if no check fails, and otherwise the error is that of the first check that does |
| `CustomerAddress.FieldsBuilt` | packages/utils/src/customer-address.ts:88-147 | what of the input comes to stand in which field |
| `CustomerAddress.ProfileNotNeeded` | packages/utils/src/customer-address.ts:88-90 | with name and phone given the profile does not matter |
| `CustomerAddress.ProfileFillsIn` | packages/utils/src/customer-address.ts:88-90 | missing name and phone come from the profile as if typed in |
| `Analytics.CountStatuses` | apps/api-gateway/src/analytics/analytics.service.ts:46-47 | the number of orders of every known or occurring status; over any listing of the statuses they sum to the number of orders |
| `Analytics.CountsAddUp` | apps/api-gateway/src/analytics/analytics.service.ts:46-47 | the counts add up to the number of orders |
| `Analytics.AddOrder` | apps/api-gateway/src/analytics/analytics.service.ts:60-66 | one order's effect on its store's row |
| `Analytics.StorePerformance` | apps/api-gateway/src/analytics/analytics.service.ts:57-69 | the stores in the order they are first seen, with their totals, which add up to the global ones |
| `Analytics.StoresAddUp` | apps/api-gateway/src/analytics/analytics.service.ts:57-69 | per-store orders, deliveries, cancellations and revenue sum to the global ones, over any listing of the stores |
| `Analytics.StoreTotalsOfOrders` | apps/api-gateway/src/analytics/analytics.service.ts:57-69 | a store's row is what the dashboard would show for its orders alone |
| `Analytics.ListsPartition` | apps/api-gateway/src/analytics/analytics.service.ts:49-52 | delivered, cancelled, payment-failed and active orders together are the orders, each as often as it occurs |
| `Analytics.ListsDisjoint` | apps/api-gateway/src/analytics/analytics.service.ts:49-52 | no order is in two of the four lists |
| `Analytics.ListsByStatus` | apps/api-gateway/src/analytics/analytics.service.ts:49-52 | each list has the orders of its status, as often as they occur |
| `Analytics.TotalsOfLists` | apps/api-gateway/src/analytics/analytics.service.ts:49-69 | the global totals are the lengths of the lists and the revenue of the delivered |

## Left out

- Advisory audit: running npm and the patch checks, parsing its JSON, severities, and the order in which a package's URLs are printed.
- PNG validator: inflating the image data and checking row filters and inflated length, which is zlib's output.
- Png.ReadChunk: computes the checksum by its definition; that the table-driven loop gives the same number is `Crc32.ComputeCrc`.
- Slots: engines that refuse years beyond their own limits before a Date's range is reached; fractional days and minutes.
- RateLimiter.SlidingWindowBound: needs a clock that does not run backwards, which Date.now does not promise.
- Production settings: decoding base64, validating the service account's JSON, the refusal of two service accounts at once, file modes, and base files in which the shell expands or runs something.
- Order pricing: rounding of floating-point numbers, and which JavaScript values convert to which numbers.
- Milk grid: filtering, the regular expressions that read a quantity label, the sorting algorithm itself, and rendering.
- Cart: events between browser tabs, rendering, and the total price.
- Addresses: converting coordinates given as text, and the messages of the errors.
- Analytics: database queries, names, rider rows, ratings, the weekly series, and sorting and cutting the store list to ten.
- Controllers, the tracking gateway, workers, seeds, maps and all user interface: input and output around services that are not part of this model.
