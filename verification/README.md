# A verified model of StorageOS's algorithms

StorageOS is a self-storage management system. Most of it is web plumbing; this project models the
self-contained algorithms inside it and proves, for all inputs or all runs, what they are for:

- **Camera events** (`Text`, `Utf8`, `EventText`, `EventLines`, `EventStream`, `EventHeaders`, `EventRuns`, `EventWriter`,
  `EventProgress`): the incremental parser of a Dahua camera's multipart stream, as a class over a growing byte buffer,
  a lazily detected boundary and a slot of events that wait for a snapshot. However the network cuts the stream, the
  parser gives the same blocks and ends in the same state; it loses no event; and what a camera writes is what comes
  out, through text, UTF-8, parts and chunks. What it accepts of lines and headers is said on their characters.
- **Blog blocks** (`BlogContent`, `BlogLines`, `BlogPrinter`) and **accountant CSV** (`Csv`): two printers and the
  scanners that read them back, and what the scanner takes for a block, said on the characters of a line.
- **Civil dates** (`Calendar`, `DateText`, `DateAdders`): day numbers and dates as a bijection over the proleptic
  Gregorian calendar of section 21.4.1 of ECMA-262, dates as text, and the adders that the repository has in three
  places. On them stand billing (`Billing`, `BillingRuns`), fiscal dates (`Fiscal`), reminder notices (`Notices`),
  cancellations before an opening (`PreOpening`) and local days of a time zone (`ZonedDays`).
- **Money** (`Money`, `Quote`, `FirstInvoice`, `FirstRent`, `Installments`): symmetric rounding to cents, coupons, the
  first payment as it is announced when signing against the first invoice of the same contract, and payment plans.
- **Unit holds** (`UnitHolds`, `HoldRows`): who holds a storage unit, on the rows of the database and over runs of
  transactions.
- **Caches and pages** (`TtlCaches`, `HostCaches`, `Paging`): two bounded caches over every interleaving of lookups, and
  cursor paging while rows are inserted.

Bytes are integers from 0 to 255 and text is a sequence of characters with JavaScript's `trim`, `split` and white space
written out. Amounts are integer cents, or reals where the code multiplies before it rounds. The clock, a zone's offset,
the tables, the lookup of a host and the reading of an origin are parameters.

## What does not hold, and exactly when

- The parser can be stuck for good, with every part that follows: after a part whose headers are complete but hold no
  `Content-Length` (the code's comment takes them for unfinished), and on a stream whose first line ends without
  announcing a boundary, a leading line break included, when none was given. From any state it can take another part if
  and only if neither has happened: `EventProgress.TakesExactly`, at inputs `TypeAloneJams` and `LeadingBreakJams`.
- The first payment announced when signing is not always the one charged. The quote rounds the discount for paying ahead
  and the invoice the rent, a cent apart if and only if the discount ends in half a cent
  (`FirstInvoice.RentEqualsInvoice`, at an input `FirstInvoice.HalfCentExample`); the announcement ignores what the
  contract has in its favour; and it keeps announcing the protection after its plan is deleted, when the invoice no longer
  charges it (`FirstInvoice.RestOfQuote`, at an input `FirstInvoice.DeletedPlanExample`). The totals are the same if and
  only if the protection is kept and the credit is the rounding cent: `FirstInvoice.QuoteEqualsInvoiceExactly`.
- A quote with a discount on a split first month puts VAT on the rent before the discount: `Quote.RentIsTheTaxedOne`, at an
  input `Quote.SplitDiscountExample`. No caller asks for one: the signing page never does
  (`FirstInvoice.SigningSplitsWithoutDiscount`), and the booking page prorates only without a valid coupon.
- The fiscal date found is the least one not before a day, except at the turn of the year, when last year's day moved
  past New Year and is still to come: `Fiscal.LeastExceptAtTurnOfYear`, at an input `Fiscal.TurnOfYearExample`. It takes a
  rule on the last two days of December, which no template has: `Fiscal.LeastForEveryTemplate`.
- A repeated reminder drifts to the shortest month it has met; the documentation only says that it repeats:
  `DateAdders.RepeatedExact`, at an input `DateAdders.DriftExample`.
- The start of a local day is its boundary unless a clock change leaves that midnight unusable:
  `ZonedDays.BoundaryExactly`, at an input `ZonedDays.TouchedExample`. The start of the current month agrees with it under
  an exact condition on the offset, `ZonedDays.MonthStartsWithItsFirstDay`, which fails at `ZonedDays.MonthExample`. That
  function is fixed to Europe/Madrid, whose changes at 01:00 UTC always meet the condition:
  `ZonedDays.MonthStartsRightInMadrid`.
- Refreshing a host in the domain cache evicts another one when the cache is full, unless the host is its oldest:
  `TtlCaches.RefreshEvictsExactlyWhenFull`, at an input `HostCaches.RefreshDropsOldestExample`.
- A domain that always resolves is held as unresolved if and only if the last finished lookup of it failed, and served so
  until a minute after that lookup began: `HostCaches.UnresolvedExactlyAfterFailure`, at a run
  `HostCaches.ServedUnresolvedExample`.
- A CSV of a single column that ends in an empty row loses that row: `Csv.CsvRoundTrip`, at an input
  `Csv.LoneEmptyExample`.
- A charge asked for when its month has begun skips the days before the next month: `BillingRuns.ChargesTileTime`, at an
  input `BillingRuns.LateChargeExample`.

## Model

| member | source | states |
|---|---|---|
| Utf8.RoundTrip | apps/bridge/src/event-stream-parser.ts:112 | Decoding undoes encoding for every text (the decoder follows the replacement rules for malformed bytes) |
| Utf8.AsciiResyncs | apps/bridge/src/event-stream-parser.ts:112 | A plain character is read as itself and alone, whatever bytes stand before it, well formed or not |
| Utf8.CutCharacter | apps/bridge/src/event-stream-parser.ts:112 | A character cut short anywhere is read as one replacement character |
| Utf8.StrayByte | apps/bridge/src/event-stream-parser.ts:112 | A byte that no character begins with is read as one replacement character and reading goes on after it |
| EventText.GroupByIndex | apps/bridge/src/event-stream-parser.ts:127-141 | The line loop leaves the Map's keys in the order of first appearance and each event with the last value of each of its fields |
| EventText.ParseEvents | apps/bridge/src/event-stream-parser.ts:126-143 | The method gives exactly the events that the matching lines describe, grouped by index in order of first appearance, those without code and fields left out |
| EventText.ParsePrintedLine | apps/bridge/src/event-stream-parser.ts:129-133 | A line written as `Events[i].Field=value` is read back as that index, field and value |
| EventText.EventsRoundTrip | apps/bridge/src/event-stream-parser.ts:126-143 | Any list of events, each written with its fields in any order and read back, is unchanged |
| EventLines.ReadExactly | apps/bridge/src/event-stream-parser.ts:129-133 | A line is read as an index, a field and a value if and only if, trimmed, it is `Events[` digits `].` a word of letters, digits, `_` and `.`, `=` and the value with any white space around it |
| EventLines.LinesAreSplit | apps/bridge/src/event-stream-parser.ts:128 | A text is cut into its lines at line feeds, with or without a carriage return before them, in any mix |
| EventLines.LastLineCounts | apps/bridge/src/event-stream-parser.ts:134-140 | Of several lines for a field of an event the last one counts, wherever the lines stand |
| EventLines.OnlyMentionedFields | apps/bridge/src/event-stream-parser.ts:134-140 | A field that no line gives is not in the event, and its code is empty without a `Code` line |
| EventLines.ProtoTellsNothing | apps/bridge/src/event-stream-parser.ts:140 | A field named `__proto__` leaves every event as it is |
| EventLines.IndicesInOrder | apps/bridge/src/event-stream-parser.ts:127-142 | Events come in the order of the first line of each, whatever their numbers |
| EventLines.IndicesAreDistinct | apps/bridge/src/event-stream-parser.ts:127-142 | No index comes twice and each is that of some line |
| EventLines.InkedIsRead | apps/bridge/src/event-stream-parser.ts:129-133 | A line is read whatever white space stands before it, around its value and after it, and with leading zeros in its number |
| EventLines.WrittenEventsComeBack | apps/bridge/src/event-stream-parser.ts:126-143 | Events written with each line ended by "\n", by "\r\n" or, the last, by nothing, in any mix, come back: all that have a code or some field, in order, and no other |
| EventStream.ScanStable | apps/bridge/src/event-stream-parser.ts:84-102 | A decision on the buffer is final: later bytes only lengthen what is left over |
| EventStream.DetectStable | apps/bridge/src/event-stream-parser.ts:75-81 | A detected boundary is the same however much follows |
| EventStream.TakePartsAppend | apps/bridge/src/event-stream-parser.ts:56-62 | Taking parts as bytes arrive gives the parts and the rest of the whole |
| EventStream.TakePartsLeavesNone | apps/bridge/src/event-stream-parser.ts:56-62 | No complete part is left in the buffer |
| EventStream.StepSettles | apps/bridge/src/event-stream-parser.ts:51-63 | After every push the parser has nothing more to take: no undetected boundary, no complete part |
| EventStream.StepTwice | apps/bridge/src/event-stream-parser.ts:51-63 | Two pushes do to state and blocks what one push of both chunks does |
| EventStream.ChunkInvariance | apps/bridge/src/event-stream-parser.ts:51-102 | For every stream and every cutting, the blocks and the final buffer, boundary and waiting events are those of one push |
| EventStream.AnyTwoCutsAgree | apps/bridge/src/event-stream-parser.ts:51-102 | Two cuttings of the same stream cannot be told apart |
| EventStream.DahuaEventStreamParser.constructor | apps/bridge/src/event-stream-parser.ts:46-48 | The parser starts empty, with the given boundary when its name is not empty |
| EventStream.DahuaEventStreamParser.Push | apps/bridge/src/event-stream-parser.ts:51-63 | A push moves the fields and gives blocks as the step of the state machine does, and leaves the parser settled |
| EventStream.DahuaEventStreamParser.Flush | apps/bridge/src/event-stream-parser.ts:66-73 | Gives the waiting events, if any, as a block without a snapshot and empties the slot |
| EventStream.DahuaEventStreamParser.DetectBoundary | apps/bridge/src/event-stream-parser.ts:75-81 | The boundary is the trimmed first line when it begins with two dashes, and otherwise stays |
| EventStream.DahuaEventStreamParser.NextPart | apps/bridge/src/event-stream-parser.ts:84-102 | Takes the part at the front if and only if it is whole, and touches nothing otherwise |
| EventStream.DahuaEventStreamParser.ConsumePart | apps/bridge/src/event-stream-parser.ts:104-123 | The slot and the block given after one part, case by case |
| EventRuns.SlotRefinesGrouping | apps/bridge/src/event-stream-parser.ts:104-123 | The stateful slot refines a simple recursive grouping of the part list: each batch of events with the snapshot right after it |
| EventRuns.GroupKeepsEvents | apps/bridge/src/event-stream-parser.ts:104-123 | The grouping keeps every event once and in order |
| EventRuns.GroupKeepsSnapshots | apps/bridge/src/event-stream-parser.ts:105-110 | The snapshots delivered are exactly those that follow a batch of events, in order |
| EventRuns.RunGroupsParts | apps/bridge/src/event-stream-parser.ts:51-123 | Any run of pushes and a flush delivers the grouping of the parts of the whole stream, the boundary given or detected |
| EventRuns.RunConservesEvents | apps/bridge/src/event-stream-parser.ts:66-123 | Over any run the delivered events are those of the event-bearing parts, none lost, repeated or moved |
| EventRuns.NoLengthIsFinal | apps/bridge/src/event-stream-parser.ts:94-96 | Once the front part has headers without a length, no continuation gives another block |
| EventProgress.StuckExactlyWithoutLength | apps/bridge/src/event-stream-parser.ts:84-102 | With the boundary known, some continuation completes a part if and only if no complete headers without a length are at the front |
| EventProgress.TakesExactly | apps/bridge/src/event-stream-parser.ts:51-102 | From any state, boundary known or not, some continuation makes the parser take a part if and only if it can go on: no complete headers without a length, and a first line that announces a boundary or has not ended and still can |
| EventProgress.StuckIsFinal | apps/bridge/src/event-stream-parser.ts:51-102 | Once it cannot go on, the parser only piles up what it gets, however it is cut |
| EventProgress.BoundaryIsNeverEmpty | apps/bridge/src/event-stream-parser.ts:46-81 | In every state reached the boundary is not empty, as the two results above need |
| EventProgress.TypeAloneJams | apps/bridge/src/event-stream-parser.ts:94-96 | A stream whose first part has a type and no length jams the parser |
| EventProgress.LeadingBreakJams | apps/bridge/src/event-stream-parser.ts:75-81 | A stream that starts with a line break jams a parser that has to read its boundary |
| EventHeaders.LengthExactly | apps/bridge/src/event-stream-parser.ts:94 | The length read is the number of the first length header, in any letter case, after any white space and with all its digits; none if and only if there is no such header |
| EventHeaders.TypeExactly | apps/bridge/src/event-stream-parser.ts:95-101 | The type read is the value of the first type header up to a semicolon or a line break, trimmed and in small letters; empty if and only if there is none or it is blank |
| EventHeaders.BoundaryExactly | apps/bridge/src/event-stream-parser.ts:75-81 | A boundary is announced if and only if what stands before the first line break, trimmed, begins with two dashes |
| EventHeaders.PartExactly | apps/bridge/src/event-stream-parser.ts:84-102 | A part is taken if and only if its headers lie between the first boundary, whatever stands before it, and the first blank line after it, and its whole body follows |
| EventWriter.ReadLength | apps/bridge/src/event-stream-parser.ts:94 | The length read from a written header is the length of the body |
| EventWriter.ReadType | apps/bridge/src/event-stream-parser.ts:95 | The media type read from a written header is the one written |
| EventWriter.TakeWritten | apps/bridge/src/event-stream-parser.ts:84-102 | Every written part is read back, even when bodies hold the boundary or a blank line |
| EventWriter.DetectWritten | apps/bridge/src/event-stream-parser.ts:75-81 | The boundary written on the first line is the one detected |
| EventWriter.StreamRoundTrip | apps/bridge/src/event-stream-parser.ts:51-123 | Under any chunking, a written stream delivers the grouping of the parts written, with the boundary given or detected |
| EventWriter.CameraToBlocks | apps/bridge/src/event-stream-parser.ts:51-143 | From a camera's reports, photos and heartbeats to the delivered blocks, through every layer: lines with any ends and white space, pictures of any `image/` type, heartbeats with white space around them, any chunking |
| BlogContent.WebLinkRoundTrip | packages/shared/src/blog/content.ts:41-55 | Reading a printed link gives it back |
| BlogContent.ParsedLinkIsKnown | packages/shared/src/blog/content.ts:41-55 | Only known destinations are read, and what is read prints as it was written but for its spaces |
| BlogContent.AddressExactly | packages/shared/src/blog/content.ts:41-60 | An address makes a button if and only if it is `web:` and a section or a kind and slug, or begins with `http://` or `https://` in any letter case, said on its characters |
| BlogContent.ParseComparison | packages/shared/src/blog/content.ts:92-108 | The loop gives the columns of the non-blank lines, or nothing when one is invalid or their number is not 2 to 4 |
| BlogContent.SplitBlogContent | packages/shared/src/blog/content.ts:122-169 | The scanner's loop, with its buffer, fence flag and jumps, computes the recursive division of the lines |
| BlogContent.SegmentsCover | packages/shared/src/blog/content.ts:122-169 | For any lines: every line is in one segment, once and in order; each block begins after an even number of fence lines, those inside blocks counted; between two blocks all the text is one run |
| BlogContent.BlockHasNoFence | packages/shared/src/blog/content.ts:92-146 | None of the lines that a block takes, the body of a comparison included, is a fence line |
| BlogContent.BlocksOutsideFences | packages/shared/src/blog/content.ts:122-169 | In any post, each block begins after an even number of fence lines counted over all the raw lines before it |
| BlogContent.PostIsCovered | packages/shared/src/blog/content.ts:122-169 | For any post: its segments joined are the post itself |
| BlogContent.BlockLineIsNoFence | packages/shared/src/blog/content.ts:133-146 | A fence line never makes a block, whichever side of the fence it is counted on |
| BlogContent.SplitIsSound | packages/shared/src/blog/content.ts:92-169 | Whatever the text, every block that comes out is valid: no blank text, a caption of 1 to 80 with an address of the site or of the web said on its characters, a known widget, 2 to 4 titled columns within their limits |
| BlogLines.FenceExactly | packages/shared/src/blog/content.ts:134 | A fence line is white space, three backquotes or three tildes, and anything after them |
| BlogLines.OpeningExactly | packages/shared/src/blog/content.ts:88-135 | A line opens a comparison if and only if it is `[[comparativa]]`, in any letter case and with any white space around it and around the word |
| BlogLines.ClosingExactly | packages/shared/src/blog/content.ts:89-136 | The same of the line that closes it, with a `/` before the word |
| BlogLines.ButtonExactly | packages/shared/src/blog/content.ts:110-154 | A line is a button with that text and address if and only if it is written as one: the name with or without its accent, white space anywhere, the text cut at 80, and a second bar and what follows it ignored |
| BlogLines.WidgetExactly | packages/shared/src/blog/content.ts:110-162 | A line is a widget if and only if its name is one of the three, in any letter case and with or without accents, and it has no argument |
| BlogLines.ColumnExactly | packages/shared/src/blog/content.ts:94-103 | Texts between bars make a column if and only if the second is not blank and the first is blank or a secure address; each is cut to its length and a fourth is ignored |
| BlogLines.BlankLinesSkipped | packages/shared/src/blog/content.ts:94-95 | A blank line anywhere among those of a comparison does not matter |
| BlogLines.ComparisonExactly | packages/shared/src/blog/content.ts:92-108 | Lines that are not blank make a comparison if and only if each is a column and they are from two to four |
| BlogPrinter.ButtonBack | packages/shared/src/blog/content.ts:171-173 | A printed button is read back as that button |
| BlogPrinter.AnyButtonBack | packages/shared/src/blog/content.ts:145-173 | Whatever the text given, a button is read back with what is left of it, trimmed and cut at 80 |
| BlogPrinter.BarsGo | packages/shared/src/blog/content.ts:172 | Bars and closing brackets are dropped from a text, and nothing else |
| BlogPrinter.WidgetBack | packages/shared/src/blog/content.ts:175-177 | A printed widget is read back as that widget |
| BlogPrinter.CleanIsFlat | packages/shared/src/blog/content.ts:181 | Whatever a column's text, cleaned it is trimmed, on one line and without separators |
| BlogPrinter.CleanExactly | packages/shared/src/blog/content.ts:181 | Cleaned, a text is its words with one space between them, whatever bars and white space stood around them |
| BlogPrinter.ColumnParts | packages/shared/src/blog/content.ts:96-183 | For any column, the reader cuts the printed line into exactly its three cleaned texts |
| BlogPrinter.ComparisonBack | packages/shared/src/blog/content.ts:180-187 | A printed comparison is read back with its columns, whatever lines follow it |
| BlogPrinter.BlockScanned | packages/shared/src/blog/content.ts:132-165 | A printed block closes the text before it and leaves what follows as it would be scanned alone |
| BlogPrinter.TextScanned | packages/shared/src/blog/content.ts:122-169 | Text with its fences closed and no block line outside them joins the run before it |
| BlogPrinter.PostScanned | packages/shared/src/blog/content.ts:122-187 | The scan of the lines of any printable post gives its blocks |
| BlogPrinter.BlogRoundTrip | packages/shared/src/blog/content.ts:122-187 | Splitting a printed post gives the same list of blocks, for any printable blocks with no two texts in a row |
| Csv.ToAccountantCsv | packages/shared/src/accounting/accountant-export.ts:169-173 | The loop writes the file of the table of texts, header first |
| Csv.FieldBack | packages/shared/src/accounting/accountant-export.ts:161-166 | A reader after section 2 of RFC 4180 gets any cell text back, quotes, separators and line breaks included |
| Csv.AmountReadsBack | packages/shared/src/accounting/accountant-export.ts:164 | The text of a number reads back as its sign, a whole part without leading zeros and two decimals after a comma, which are the nearest cents, a half going away from zero |
| Csv.CsvRoundTrip | packages/shared/src/accounting/accountant-export.ts:161-173 | The reader recovers header and cells exactly if and only if the file is not one column ending in an empty row |
| Csv.LoneEmptyExample | packages/shared/src/accounting/accountant-export.ts:169-173 | A column with one empty row: the file holds the header and a line break, and the row is lost |
| Csv.AccountantCsvReadsBack | packages/shared/src/accounting/accountant-export.ts:169-173 | With two columns or more, any export reads back as its headers and, row by row, the text of each cell: nothing for null, the text itself, or the nearest cents of a number with its sign |
| Calendar.DayNumberOfDateOf | packages/shared/src/business-reminders/index.ts:334-338 | Every day number is that of a date of the calendar |
| Calendar.DateOfDayNumber | packages/shared/src/business-reminders/index.ts:334-338 | Every date comes back from its day number |
| Calendar.DayNumberOrder | packages/shared/src/business-reminders/index.ts:341-345 | Day numbers follow the order of year, month and day |
| Calendar.LastDayIsMonthDays | packages/shared/src/business-reminders/index.ts:321-323 | Day 0 of the next month is the last day of the month, in any month index |
| Calendar.MonthsTile | packages/shared/src/business-reminders/index.ts:321-323 | The day after the end of a month is the first of the next |
| DateText.DateRoundTrip | packages/shared/src/business-reminders/index.ts:312-319 | Reading a printed date gives it back |
| DateText.TextOrder | packages/shared/src/business-reminders/index.ts:416-417 | The order of four-digit-year dates as strings is the order of time, and equal text is the same day |
| DateText.PrintersAgree | packages/shared/src/business-reminders/index.ts:317-319 | From year 1000 on the two ways of printing a date agree exactly on years of four digits |
| DateAdders.DayAddersAgree | packages/shared/src/business-reminders/index.ts:334-338 | The three day adders give the same date, the one that many days away |
| DateAdders.MonthAddersAgree | packages/shared/src/business-reminders/index.ts:326-332 | Back or forth, the three month adders give the same date: same day, or the last one of a shorter month |
| DateAdders.AddersPrintAlike | packages/shared/src/contracts/pre-opening.ts:19-29 | The adders of two packages print the same text if and only if the year keeps four digits |
| DateAdders.DaysBetweenInverse | packages/shared/src/business-reminders/index.ts:334-345 | Adding the days between two dates leads from one to the other, and measuring undoes adding |
| DateAdders.DaysBetweenIs | packages/shared/src/business-reminders/index.ts:341-345 | The days between two dates are the distance of their day numbers |
| DateAdders.RepeatedDrifts | packages/shared/src/business-reminders/index.ts:369-376 | After any number of steps the due day is cut to the shortest month met on the way |
| DateAdders.RepeatedExact | packages/shared/src/business-reminders/index.ts:369-376 | The stepped date is the one counted from the start if and only if no month met was too short for it |
| DateAdders.DriftExample | packages/shared/src/business-reminders/index.ts:369-376 | Monthly from 31 January 2026: the second step is 28 March, not 31 March |
| Billing.PlanInMonths | packages/shared/src/billing/first-month.ts:38-58 | The first payment covers from the entry day to the end of its month, or of the next when included |
| Billing.NextMonthExactly | packages/shared/src/billing/first-month.ts:38-58 | The next month is included if and only if the entry day is not the first, there is a threshold other than 0 and the entry day is not before it; the period and the start of billing follow |
| Billing.PlanTiles | packages/shared/src/billing/first-month.ts:38-58 | Billing starts the day after the paid period, and the days paid are counted once |
| Billing.ShareIsProper | apps/api/src/common/next-charge.ts:38-46 | The share is in (0, 1] and is 1 exactly from the first of a month |
| Billing.NextContractCharge | apps/api/src/common/next-charge.ts:11-47 | The method, with its loop over candidate dates, gives the date and amount of the specification |
| BillingRuns.ChargeStartsAtLatest | apps/api/src/common/next-charge.ts:23-46 | A monthly charge starts on the latest of first unpaid day and start of billing if and only if that is in a later month than today |
| BillingRuns.LateChargeExample | apps/api/src/common/next-charge.ts:23-46 | Paid until 10 January and asked on the 15th, the charge does not start on the 11th |
| BillingRuns.MonthlyAmountFits | apps/api/src/common/next-charge.ts:42-46 | A monthly charge never passes the price and reaches it exactly from the first of a month |
| BillingRuns.PrepaidAmountFits | apps/api/src/common/next-charge.ts:26-32 | A prepaid charge lies between its protection alone and its full price, and meets both at the ends of the discount |
| BillingRuns.PrepaidExactly | apps/api/src/common/next-charge.ts:23-32 | The discount takes off exactly its percentage of the rent of the months, nothing of the protection, and the charge falls on the day after the covered period or, failing that, on the start of billing or the first of next month |
| BillingRuns.FreeMonthsChargeNoRent | apps/api/src/common/next-charge.ts:25-46 | With free months left the rent does not matter and the protection is still charged |
| BillingRuns.PlanThenCharge | apps/api/src/common/next-charge.ts:23-46 | On every day of the first paid period, the next charge is the start of billing at full share |
| BillingRuns.ChargedTiles | apps/api/src/common/next-charge.ts:23-46 | Whatever the start of billing, a charge pays from the first day to charge to the end of a month, and from exactly that day if and only if it is asked before its month |
| BillingRuns.NoDayTwice | apps/api/src/common/next-charge.ts:23-46 | Over any run of charges, whenever they are asked, no day is paid twice, none before the first to charge and none after the last covered |
| BillingRuns.ChargesTileTime | apps/api/src/common/next-charge.ts:23-46 | Over any run of charges and for any start of billing, every day from the first to charge to the last covered is paid exactly once if and only if each charge is asked in time |
| Fiscal.AtIs | packages/shared/src/business-reminders/index.ts:670-692 | A year's occurrence is the first weekday from its official day, the month's last when it is shorter |
| Fiscal.FiscalDateOnOrAfter | packages/shared/src/business-reminders/index.ts:690-699 | The loop ends, after at most one extra year, on this year's occurrence or on next year's when that is past |
| Fiscal.FiscalDateFits | packages/shared/src/business-reminders/index.ts:690-699 | The date found is a weekday and not before the given one |
| Fiscal.LastYearStillDue | packages/shared/src/business-reminders/index.ts:690-699 | Last year's occurrence is still to come if and only if the day is at the turn of the year |
| Fiscal.LeastExceptAtTurnOfYear | packages/shared/src/business-reminders/index.ts:690-699 | The date found is the least occurrence of any year not before the given day if and only if that day is not at the turn of the year |
| Fiscal.TurnOfYearExample | packages/shared/src/business-reminders/index.ts:690-699 | On 1 January 2023 a rule for 31 December is at the turn of the year |
| Fiscal.LeastForEveryTemplate | packages/shared/src/business-reminders/index.ts:461-579 | For every rule of the fiscal templates the date found is the least occurrence, from any day |
| Fiscal.NextAfterOccurrence | packages/shared/src/business-reminders/index.ts:706-710 | After an occurrence comes that of the next year, with no drift from its weekend shift |
| Fiscal.YearAfterYear | packages/shared/src/business-reminders/index.ts:706-710 | Over any number of years the due dates increase and are the occurrences of consecutive years |
| Fiscal.KeyRoundTrip | packages/shared/src/business-reminders/index.ts:686-710 | The rule is read back from the key it was created under |
| Notices.NoticeKindIs | packages/shared/src/business-reminders/index.ts:406-427 | The string comparisons and the day count amount to the rule on day numbers |
| Notices.SentIsAsked | apps/api/src/modules/business-reminders/business-reminder-notices.service.ts:155-173 | A run of checks sends exactly the notices that some check asks for, each once |
| Notices.SkippingNeverAdds | apps/api/src/modules/business-reminders/business-reminder-notices.service.ts:155-173 | Skipping check days never adds a notice nor sends one twice |
| Notices.MilestonesOnce | packages/shared/src/business-reminders/index.ts:399-424 | Checked every day to the due date, a reminder sends one notice for the smallest milestone not below the days left, one for each smaller milestone, and nothing else |
| Notices.OverdueOneADay | packages/shared/src/business-reminders/index.ts:425-426 | After the due date there is one notice a day, in order, for exactly the days allowed |
| Notices.SilentOnceOverdue | packages/shared/src/business-reminders/index.ts:406-427 | Without overdue reminders no run of checks sends an overdue notice, nor an unsnoozed reminder anything after its due date |
| Notices.SnoozedRun | packages/shared/src/business-reminders/index.ts:413-427 | Over any run of checks a snoozed reminder sends its snooze notice once, if checked on that day, and besides exactly what it would send unsnoozed on the later checks |
| Notices.NothingBeforeSnooze | packages/shared/src/business-reminders/index.ts:415-418 | Any checks before the snooze day send nothing |
| PreOpening.DepositKeptBetween | packages/shared/src/contracts/pre-opening.ts:53-94 | Before the start the rent comes back, and the deposit is kept exactly after the fourteenth day from signing and not after the deadline; and when each of the three reasons is given |
| PreOpening.DeadlineAfterWithdrawal | packages/shared/src/contracts/pre-opening.ts:19-59 | With the deadline some months from signing, it falls at least two weeks after the withdrawal days end |
| ZonedDays.MidnightWhenItExists | apps/api/src/common/format.ts:97-106 | When the local midnight exists, the instant found is a local midnight |
| ZonedDays.BoundaryExactly | apps/api/src/common/format.ts:97-106 | The instant found separates the instants before local midnight from the rest if and only if the clock change leaves that midnight usable |
| ZonedDays.NextMidnight | apps/api/src/common/format.ts:109-114 | The start of the next day is the boundary of the midnight 24 hours of UTC later |
| ZonedDays.LocalDaysTile | apps/api/src/common/format.ts:97-114 | With both midnights usable, an instant lies between the two starts if and only if its local date is that day |
| ZonedDays.TouchedExample | apps/api/src/common/format.ts:97-106 | A change at midnight five hours behind UTC: the day is made to start at 23:00 of the day before |
| ZonedDays.MonthStartsWithItsFirstDay | apps/api/src/common/format.ts:117-138 | With whole-hour offsets the month starts with its first day if and only if the offset at local midnight is the hour read at UTC midnight |
| ZonedDays.MonthStartsRightEastOfUtc | apps/api/src/common/format.ts:117-138 | East of UTC that is so exactly when the offset does not change between the two midnights |
| ZonedDays.MonthStartsRightInMadrid | apps/api/src/common/format.ts:116-138 | In a zone one or two hours ahead that changes only at 01:00 UTC, as Madrid's, the month always starts with its first day |
| ZonedDays.MonthExample | apps/api/src/common/format.ts:117-138 | With a change between the two midnights the month starts an hour early |
| Money.RoundOpposite | apps/api/src/common/money.ts:24-26 | Rounding the opposite gives the opposite |
| Money.AwayExactly | apps/api/src/common/money.ts:24-26 | The nearest integer, with a half and what lacks up to the margin to it going away from zero |
| Money.AwayQuotient | apps/api/src/common/money.ts:24-26 | On amounts with a denominator up to a million, the margin never changes the rounding of halves away from zero |
| Money.CentsRoundTrip | apps/api/src/common/money.ts:29-31 | Cents written in euros and read back are the same cents |
| Money.CentOperations | apps/api/src/common/money.ts:49-66 | On whole cents the sums and comparisons are exact and subtraction undoes addition |
| Money.DriftIsAbsorbed | apps/api/src/common/money.ts:49-66 | On amounts that have drifted less than half a cent from whole cents, sums, differences and comparisons are those of the cents |
| Money.OppositeLine | apps/api/src/common/money.ts:38-46 | The line of a negated quantity is the exact opposite in base, tax and total |
| Money.LineFits | apps/api/src/common/money.ts:38-46 | Base and tax of a line are within half a cent of quantity times price and of the tax on the rounded base, and the total is their sum |
| Money.LineOfCents | apps/api/src/common/money.ts:38-46 | A line of one unit at a price in cents costs it with its VAT rounded as the quote rounds it |
| Money.VatOfSum | packages/shared/src/coupons/index.ts:488-490 | VAT rounded on two amounts is within a cent of VAT on their sum |
| Quote.PlansArePlans | packages/shared/src/billing/first-month.ts:38-58 | Every plan has the days that the amounts rely on: within its month, and all of it when it counts as full |
| Quote.FirstMonthFits | packages/shared/src/billing/first-month.ts:61-70 | The part of a month is within half a cent of its days, never above the month, and the month for all its days |
| Quote.EntryRentExactly | packages/shared/src/billing/first-month.ts:39-70 | What is paid from an entry day: the days of its month to within half a cent, and the whole next month exactly when the entry is not on the first and not before a threshold other than 0 |
| Quote.CouponIsBounded | packages/shared/src/coupons/index.ts:407-430 | A discount is never more than the rent; free months leave one month to pay and take off exactly their rent; a fixed amount is taken off whole or up to the rent |
| Quote.FreeMonthsExactly | packages/shared/src/coupons/index.ts:411-430 | The free months are the greatest number of whole months, not above the discount value, that leaves one month to pay; other coupons give none and a value below zero takes nothing off |
| Quote.RejectedExactly | packages/shared/src/coupons/index.ts:380-409 | A coupon is rejected for the first of the twelve reasons that holds, each said on the coupon and the order, and accepted if and only if none does |
| Quote.MonthIsNearest | packages/shared/src/coupons/index.ts:407 | The price of a month in cents is the nearest to the price in euros |
| Quote.PercentageTakesOff | packages/shared/src/coupons/index.ts:413-422 | A percentage is taken off to within half a cent |
| Quote.CouponCarriesOver | packages/shared/src/coupons/index.ts:407-487 | The quote that carries a coupon's discount has the coupon's rent |
| Quote.QuoteWithinACent | packages/shared/src/coupons/index.ts:488-490 | It is within a cent of VAT on the rent, when no discount meets a split month |
| Quote.RentIsTheTaxedOne | packages/shared/src/coupons/index.ts:481-490 | The rent announced is the one on which VAT is put if and only if the arguments do not give a discount for a split month with rent |
| Quote.SplitDiscountExample | packages/shared/src/coupons/index.ts:481-490 | Half a month of 100 euros with 10 off announces 40 and puts VAT on 50 |
| FirstInvoice.AcceptedIsRedemption | apps/api/src/modules/coupons/coupons.service.ts:389-449 | Every accepted coupon is recorded with a discount that is exactly its free months, fewer than those paid |
| FirstInvoice.ApplyCredit | apps/api/src/modules/billing/first-invoice.service.ts:340-353 | The loop takes the credit off the rent lines from the first on |
| FirstInvoice.ReducedTotal | apps/api/src/modules/billing/first-invoice.service.ts:331-353 | Credit up to the rent lowers the lines by exactly itself, and the total with VAT by no less |
| FirstInvoice.InvoiceIs | apps/api/src/modules/billing/first-invoice.service.ts:130-353 | Line by line, the first invoice charges the rent of its branch less the claimed credit, with VAT rounded a line, and the protection of the same months or days only while the contract has its plan |
| FirstRent.FirstRentExactly | apps/api/src/modules/billing/first-invoice.service.ts:164-330 | The rent of the first invoice in every branch, on the fields of the contract: the months less the free ones, less the discount down to nothing, or less the percentage for paying ahead to the nearest cent; or the days from the entry |
| FirstRent.ProtectionExactly | apps/api/src/modules/move-in/signatures.service.ts:484-527 | The protection is announced for every month paid ahead or for the days from the entry, with the VAT of its plan or 21 % without one, and charged only while there is a plan |
| FirstInvoice.QuoteRentIs | apps/api/src/modules/move-in/signatures.service.ts:460-527 | The rent of the signing page, with and without VAT, against the invoice's rent of the same branch |
| FirstInvoice.RestOfQuote | apps/api/src/modules/move-in/signatures.service.ts:484-527 | The deposit is announced as charged, and the protection if and only if the contract still has its plan or it costs nothing; otherwise all of it is announced and none charged |
| FirstInvoice.QuoteEqualsInvoice | apps/api/src/modules/billing/first-invoice.service.ts:130-353 | While the protection is kept, the total announced equals invoice and deposit to the cent if and only if the claimed credit is the cent that rounding adds; in any case the totals differ by what the rents differ plus the protection of a deleted plan |
| FirstInvoice.QuoteEqualsInvoiceExactly | apps/api/src/modules/billing/first-invoice.service.ts:130-353 | For the intervals of a contract, the totals are the same if and only if the protection is kept and the claimed credit is the rounding cent |
| FirstInvoice.RentEqualsInvoice | apps/api/src/modules/billing/first-invoice.service.ts:164-300 | Without credit, the rents agree in every branch but paying ahead, and there if and only if the discount does not end in half a cent, otherwise the invoice has one cent more; so do the totals while the protection is kept |
| FirstInvoice.HalfCentExample | apps/api/src/modules/billing/first-invoice.service.ts:230-240 | Six months at 49.95 with 5 % off: 344.50 announced, 344.51 charged |
| FirstInvoice.DeletedPlanExample | apps/api/src/modules/billing/first-invoice.service.ts:182-196 | A month at 50.00 with protection at 5.00 whose plan has been deleted: 66.55 announced, 60.50 charged |
| FirstInvoice.SigningSplitsWithoutDiscount | apps/api/src/modules/move-in/signatures.service.ts:495-527 | The signing page never asks for a discount on a split month |
| Installments.PlanAddsUp | packages/shared/src/billing/collections-ops.ts:147-162 | A plan sums to the total to the cent, in equal parts but the last, which exceeds them by less than a cent an installment |
| Installments.DueDatesIncrease | packages/shared/src/billing/collections-ops.ts:155-174 | Due dates increase strictly and each is counted from the first, so a monthly plan keeps its day |
| Installments.AllocateInstallments | packages/shared/src/billing/collections-ops.ts:128-144 | The walk that decreases what is left gives the allocation of the specification |
| Installments.StatusExactly | packages/shared/src/billing/collections-ops.ts:128-144 | A part is paid if and only if the payment reaches the sum up to it or it is zero; late if and only if it is not paid and today is past its due day and the days of grace; partial if neither and the payment exceeds the parts before it; pending otherwise; with what is paid of it |
| Installments.CoveredSum | packages/shared/src/billing/collections-ops.ts:134-143 | What is covered in all is the lesser of the payment and the total |
| Installments.CoveredIs | packages/shared/src/billing/collections-ops.ts:134-143 | Each part gets what the payment leaves above the sum of the parts before it, up to its amount |
| Installments.CoversInOrder | packages/shared/src/billing/collections-ops.ts:134-143 | Nothing goes to a part while an earlier one is short |
| Installments.PayingMoreHelps | packages/shared/src/billing/collections-ops.ts:128-144 | Paying more never uncovers a part nor worsens its status |
| Installments.PayingTheTotal | packages/shared/src/billing/collections-ops.ts:128-162 | Paying the total of a built plan marks every installment as paid |
| UnitHolds.HeldMeansHolder | apps/api/src/common/unit-holds.ts:23-106 | The query says held if and only if some holder of the five kinds exists that its arguments do not leave out |
| UnitHolds.ExclusionsOnlyFree | apps/api/src/common/unit-holds.ts:23-106 | More exclusions can only turn held into free |
| UnitHolds.UnitStore.DescribeUnitHold | apps/api/src/common/unit-holds.ts:178-257 | Names the first kind that has a row, with one of its rows; of reservations the one that ends first, of drafts the newest |
| UnitHolds.QueriesAgree | apps/api/src/common/unit-holds.ts:23-257 | A held unit has a description; one of any kind but a draft means held, and one of a draft exactly when some draft was converted |
| UnitHolds.UnitStore.ReleaseReservedUnit | apps/api/src/common/unit-holds.ts:112-147 | The method changes the unit and adds the history row, or neither, as the specification says |
| UnitHolds.ReleasedExactlyWhenUnheld | apps/api/src/common/unit-holds.ts:112-147 | A unit is released if and only if it was reserved and nobody but the owners named holds it |
| HoldRows.ReleasedExactly | apps/api/src/common/unit-holds.ts:23-147 | A unit is put back on sale, and nothing else changes, if and only if it was reserved and no row keeps it, said on the columns: a valid reservation, a draft in time or a contract before the opening, a move, a notice, or an open draft out of a reservation or of a notice |
| HoldRows.FreeExactly | apps/api/src/common/unit-holds.ts:23-106 | Nobody holds a unit if and only if no row of those kinds is there |
| HoldRows.DescribedExactly | apps/api/src/common/unit-holds.ts:178-257 | The kind that describes a hold is that of the first kind of row that there is, said on the columns |
| HoldRows.OfferedExactly | apps/api/src/common/unit-holds.ts:9-13 | A unit passes the filter if and only if no reservation of it, pending or confirmed, is still valid |
| UnitHolds.ReleaseIsSafeExactly | apps/api/src/common/unit-holds.ts:112-147 | A released unit is free of every holder if and only if the owners named had ended their hold |
| UnitHolds.LettingGoTouchesOne | apps/api/src/common/unit-holds.ts:108-147 | Letting go changes no unit but the one let go of, only when it is reserved, and leaves it on sale with no holder |
| UnitHolds.BackOnSaleOnlyWhenFree | apps/api/src/common/unit-holds.ts:108-147 | Over any run in which owners end their hold and release in one step: between a moment when a unit is reserved and a later one when it is available, it was let go of at a step after which nobody held it |
| UnitHolds.ReleasedIsOffered | apps/api/src/common/unit-holds.ts:9-13 | Over any such stretch, the unit passed the filter of units without a live reservation right after it was let go of, then and later |
| UnitHolds.OthersNeverTouched | apps/api/src/common/unit-holds.ts:131-135 | Over any stretch of a run, a unit that is neither available nor reserved keeps its status |
| UnitHolds.StepLogged | apps/api/src/common/unit-holds.ts:131-145 | One history row is added exactly when a unit changes, and it tells the change |
| UnitHolds.HistoryReplays | apps/api/src/common/unit-holds.ts:131-145 | Over any run, the history replayed from the start gives the units as they are |
| TtlCaches.StoreIsBounded | apps/api/src/common/cors-origin.ts:29-39 | Storing keeps the bound and one entry a host, in both caches |
| TtlCaches.ServedExactly | apps/api/src/common/cors-origin.ts:52-54 | What is served for a host is the value of its entry, until it expires |
| TtlCaches.StoredIsServed | apps/api/src/common/cors-origin.ts:29-54 | A value stored is served until its time to live is over, counted from when its lookup began, in both caches |
| TtlCaches.RoomKeepsOthers | apps/api/src/common/cors-origin.ts:29-39 | Storing in a cache with room changes nothing of what is served for the other hosts |
| TtlCaches.RefreshEvictsNobody | apps/api/src/common/cors-origin.ts:29-39 | Refreshing a host that is cached never evicts another |
| TtlCaches.RefreshEvictsExactlyWhenFull | apps/web/src/middleware.ts:107-111 | A refresh keeps every other host if and only if the cache is not full or the host is its oldest |
| TtlCaches.EveryRunIsGood | apps/api/src/common/cors-origin.ts:29-62 | Over every interleaving of lookups, ticks and failures the bound holds, every verdict held is how the last lookup of its host ended, and every one served how a lookup ended that began less than the time to live before, the verdict for failures included |
| TtlCaches.HeldIsLastVerdict | apps/api/src/common/cors-origin.ts:29-62 | In any run what is held for a host is the verdict of its last finished lookup, expiring a time to live after that began; a value that the source never gives is held only for failures |
| TtlCaches.RevokedWithinTtl | apps/api/src/common/cors-origin.ts:14-20 | A value that the source stops giving is not served from the time to live on, unless it is the one for failures and a lookup of that host has failed within the time to live |
| TtlCaches.EntriesAreAnswers | apps/api/src/common/cors-origin.ts:56-61 | Where failures are not stored, every entry of any run is an answer of the source within the time to live |
| HostCaches.CorsOrigin.Ask | apps/api/src/common/cors-origin.ts:41-54 | No origin and allowed origins pass, unreadable ones do not, a cached verdict is served while it lasts, and otherwise a lookup starts |
| HostCaches.CorsOrigin.SetCached | apps/api/src/common/cors-origin.ts:29-39 | The field becomes what storing the verdict gives |
| HostCaches.CorsRevokesWithinTtl | apps/api/src/common/cors-origin.ts:14-62 | Over any run at most 2000 hosts are kept and a revoked domain is not allowed from the time to live on |
| HostCaches.CorsHoldsAnswers | apps/api/src/common/cors-origin.ts:56-61 | Over any run whatever the cache holds was answered: a failed lookup leaves nothing |
| HostCaches.DomainCache.Ask | apps/web/src/middleware.ts:88-91 | A cached resolution is served while it lasts; otherwise a lookup starts |
| HostCaches.DomainCache.Resolve | apps/web/src/middleware.ts:92-112 | The answer, or an unresolved host for a failure, is stored and returned |
| HostCaches.DomainFollowsWithinAMinute | apps/web/src/middleware.ts:84-113 | Over any run at most 2000 hosts are kept, and no resolution, unresolved included, is served a minute after the source stopped giving it, unless a lookup begun within the minute failed |
| HostCaches.ResolvedDomainIsServed | apps/web/src/middleware.ts:84-113 | A domain that resolves and whose lookups no longer fail is not served as unresolved from a minute on |
| HostCaches.UnresolvedExactlyAfterFailure | apps/web/src/middleware.ts:92-112 | A domain that always resolves is held as unresolved if and only if its last finished lookup failed, and served so if and only if besides less than a minute has passed since that began |
| HostCaches.ServedUnresolvedExample | apps/web/src/middleware.ts:88-112 | A run of three steps in which a domain that always resolves is served as unresolved |
| HostCaches.RefreshDropsOldestExample | apps/web/src/middleware.ts:107-111 | In a full cache of the hosts "0" to "1999", refreshing "1" drops "0" |
| Paging.WrittenLimits | apps/api/src/common/pagination.ts:24-27 | A written page size is used within 1 and 100 and cut to them outside |
| Paging.LimitExactly | apps/api/src/common/pagination.ts:24-28 | The page size is the number that the text begins with, after white space and with its sign, whatever follows it, cut to 1 and 100; 50 when there is none |
| Paging.RequestExactly | apps/api/src/common/pagination.ts:20-29 | A request is refused if and only if its cursor is not empty and not five runs of 8, 4, 4, 4 and 12 hexadecimal digits between hyphens |
| Paging.AnyRequestListsAll | apps/api/src/common/pagination.ts:20-53 | Whatever text is given as page size, a listing without a cursor is accepted and returns the whole table in pages of 1 to 100 rows |
| Paging.FetchIs | apps/api/src/common/pagination.ts:36-53 | A page is the next run of rows, with a next cursor exactly when rows are left |
| Paging.PageCountIs | apps/api/src/common/pagination.ts:49-53 | The number of pages is the least that holds the rows, and at least one |
| Paging.PagesListTheRest | apps/api/src/common/pagination.ts:36-53 | Following the cursor returns every row once and in order, in that number of pages, none empty but an only one |
| Paging.FollowInOrder | apps/api/src/common/pagination.ts:36-53 | With insertions between requests the rows returned are in strict order |
| Paging.FollowFinds | apps/api/src/common/pagination.ts:36-53 | Once the pages end, every row present from the start has been returned |
| Paging.RowsInsertedBetweenRequests | apps/api/src/common/pagination.ts:36-53 | With rows inserted but never deleted, every row present from the start is returned exactly once and no row twice |
| Paging.PagesEnd | apps/api/src/common/pagination.ts:36-53 | Whatever is inserted, all pages but the last are full and fit in the last table, so the pages end once the requests made exceed the rows that there are |

## Left out

- Strings are sequences of code points: a JavaScript slice of 80 or 120 units may cut a character outside the basic plane in two.
- `Number` of an event index or a length beyond 2^53, which loses digits, and a regular expression's cost.
- Floating point: sums and products are exact, the small margin of `roundHalfAway` included; NaN, infinities and `toFixed` from 1e21 on.
- Dates: the `NaN` branch of a malformed day, years below 100 (which `Date.UTC` moves to the twentieth century) and, where dates are compared as text, years outside 1000 to 9999.
- DateAdders.MonthAddersAgree: results from year 100 on; before year 0 the `%` of `addMonthsToDate` keeps the sign and the adders part.
- Fiscal.NextAfterOccurrence: years 1000 to 9995, so that every date looked at has a year of four digits.
- FirstInvoice.QuoteEqualsInvoiceExactly: paying one month, or six or more ahead (a contract has one, six or twelve), and VAT on the rent of at most 100 %.
- FirstInvoice.QuoteEqualsInvoice: whole VAT rates and prices in whole cents, as they are stored; a discount not above the price and a contract before an opening paid by one month, as making a contract ensures; the withholding tax recorded as a payment when an invoice is issued is not part of it.
- The periods that the first invoice prints on its lines and the start of billing that it stores on the contract.
- The panel's preview of a new contract, which has arithmetic of its own in the page.
- Quote.QuoteWithinACent: leaves out a discount on a split month, where the gap is as large as the discount with VAT.
- BlogPrinter.BlogRoundTrip: a caption (but see `BlogPrinter.AnyButtonBack`) may hold neither `|` nor `]`, and columns are already clean, because the printers drop those characters; a block line left as text is not printable.
- ZonedDays.BoundaryExactly: one offset change within a day of the midnight; zone data and `Intl` are a function from instants to offsets.
- PreOpening.DeadlineAfterWithdrawal: for a contract signed on the day it is made; a later signature can leave no day on which the deposit is kept.
- EventWriter.StreamRoundTrip: media types as cameras write them, in lower case and without parameters.
- Notices: kinds are a datatype with day numbers instead of strings, and delivery is part of the step that stores a notice.
- Unit holds: names and links of a description, tenants, users and isolation levels; each transaction is one step and rows change freely between releases.
- Caches: reading the host out of an origin (`URL`) and the HTTP lookup are parameters; two lookups of one host in flight are separate steps.
- Paging: the order is a number and then the id; rows deleted between requests, which Prisma's cursor does not survive.
- CSV: the columns of each export and their labels.
- Coupon messages, labels, periods and other fields of a quote that are passed through.
- NestJS, Next, Prisma, workers, pages, HTTP Digest, mail, storage, schemas, seeds, templates and lead scoring: wiring, foreign calls or finite tables.
