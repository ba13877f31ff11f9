# Verification of the recruiting platform's core algorithms

This project models the parts of the platform where a wrong branch is hard to see and costly, and proves what
callers rely on:

- **Delimited import** (`apps/web/lib/csv-import.ts`). `DelimitedLine` holds the quote automaton as a loop and a
  specification that only counts quote characters; `DelimitedTable` the delimiter detector, the table parser and a
  printer that quotes; `TableText` what the parser makes of any text, and `PlainTable` a printer without quotes;
  `Experience`, `CandidateImport`, `LeadImport` and `LabelList` what is read out of the cells. The quoting
  discipline is that of section 2 of RFC 4180 (rules 5 and 7); cells are trimmed, one of three delimiters is
  guessed, and quoted line breaks are not supported.
- **Locale cache over a mutating document** (`apps/web/components/site-language-provider.tsx`). `LocaleSlot` is one
  text under the cache, `LocaleDocument` the whole document as a step system (outside changes, locale switches,
  observer deliveries, animation frames), `LocaleHistory` connects the two, `LocaleOptOut` says which texts are left
  alone, and `LanguageProvider` is the component as a class whose methods refine the steps. The provider's own writes
  reach the observer after its guard flag has been cleared; what stops the feedback is the cache, and that is what is
  proved.
- **Pilot provisioning** (`scripts/provision-pilot-account.ts`). `CommandLine`, `TenantNames` and `Calendar` are the
  option parser, the tenant ids and the billing windows; `Provisioning` is one run on the tables,
  `ProvisioningEffects` that run column by column, `ProvisioningRuns` any sequence of runs, and `ProvisioningScript`
  the script as a class that updates the tables in place.
- **Usage ledger** (`apps/api/src/modules/billing/billing.service.ts`). `UsageLedger` records metered usage and
  consumes add-on grants; `UsageRaces` lets reports overlap, since each reads the usage before its transaction and
  the grants before it increments them.
- **Route ids** (`apps/web/lib/entity-routes.ts`). `Utf8`, `Base64` and `EntityRoutes` follow sections 3.2, 4 and 5
  of RFC 4648 and the runtime's text codecs.
- **Lists of the editors and dialogs**: `CompetencyDefinitions`, `ListEditor`, `JobProfile` and `UploadList`.

`Text`, `Options`, `Keyed` and `StableSort` hold shared vocabulary: trimming, decimal printing, lists with keys, and
the stable sort of `Array.prototype.sort`. Code that works by assignment (the scanning, scoring, searching and
de-duplicating loops, the provider, the provisioning script, the usage meter, the upload list) is a method proved
against a function, and the theorems are about that function.

## Where the code does less than one might expect

Each of these is a property that fails for some inputs. The project states exactly when it holds and gives an input
for which it does not.

- A printed table is read back if and only if no cell holds a line feed and it was printed with tabs or one of its
  first three lines has two or more cells; with line feeds more rows are read than were printed, and without a
  delimiter in the sample detection falls back on the tab (`DelimitedTable.TableRoundTrip`, `LineFeedsAddRows`,
  `SingleColumnMisread`).
- A table printed without quotes is read back if and only if its cells are trimmed, its delimiter prevails in the first
  three lines, and no line is lost or cut short: behind a tab, which is white space, an empty last cell disappears
  (`PlainTable.PlainRoundTrip`, `LastCellLost`). Empty leading cells stay.
- Only the first comma of a text is read as a decimal point, so an earlier comma costs a number its fraction
  (`Experience.PrintedDecimalFound`, `EarlierCommaCostsFraction`).
- A text that is hidden or detached while the locale changes is still taken for what its author meant at the next
  pass if and only if it has no cached source, or shows the cached source itself, or that source shows the text in
  the missed locale exactly when it does in the one before (`LocaleSlot.MissedPassExact`, `HarmlessExactly`). If not,
  a translation is translated again or a write that was not flushed is lost (`TranslatedTwiceWhenHidden`,
  `WriteLostWhenHidden`).
- The default locale is not observed, although rendering in it is not the identity: a text that enters after the pass
  stays as it was written until the next switch (`LocaleDocument.LateTextStaysRaw`, `AddedTextStaysRaw`).
- A text that the page writes stands for itself if and only if it is not what another cached source shows in the
  current locale; then it is taken for that source (`LocaleSlot.MeaningExact`, `CollidingWriteMistaken`).
- `Date.UTC` reads years 0 to 99 as 1900 to 1999, so windows contain their instant if and only if the year is not
  one of these, and one month has no proper successor (`Calendar.WindowContains`, `NextWindowStarts`,
  `EarlyYearMisplaced`, `YearMinusOneBreaks`). The script passes the current time, so it does not meet these years.
- `split("=", 2)` drops everything after a second `=`, and a plain object does not store the key `__proto__`, so
  `--key=value` is read back if and only if the value holds no `=` and the key is another one
  (`CommandLine.InlineValueExact`, `ParseInline`).
- A dry run does not look for another user of the tenant with the owner's address, so it reports a tenant for requests
  that then fail (`ProvisioningEffects.DryRunExactly`, `AppliedExactly`, `DryRunMissesAddress`).
- The usage text says that the script creates or updates a tenant. Repeating a command line updates the same tenant
  if and only if it names a tenant id; without one it provisions another tenant
  (`ProvisioningRuns.RepeatHitsSameTenant`, `RepeatMakesAnotherTenant`).
- The quota check takes its allowance from the account's plan snapshot and adds the units of grants of every source;
  recording takes it from the subscription and consumes add-on and manual grants only. `UsageLedger.CheckMatchesRecord`
  states both ways in which they can disagree, `CheckPassesRecordingRefuses` gives an input. No code here writes a
  plan-sourced grant, and where none is stored and the two allowances are equal they agree (`CheckAgrees`).
- A report reads the usage before its transaction, and the transaction reads the grants before it increments them.
  When reports overlap, the account of a period balances if and only if no report was counted on a stale usage
  reading and none took units that another had consumed in between (`UsageRaces.BalancedExactly`,
  `OverlapUnpaid`, `OverlapOversold`).
- A route id leads back to its id if and only if the id is a non-empty string over `[A-Za-z0-9_-]`
  (`EntityRoutes.RouteRoundTrip`); text in general survives the codec unless it starts with a byte order mark
  (`EntityRoutes.Base64UrlRoundTrip`). An id that was never encoded passes the decoder unchanged if and only if it
  does not itself read as an encoded one (`EntityRoutes.UnchangedIffNotEncoded`, `RawIdMisread`).
- Pressing a preset twice restores the list if and only if it was absent or closed the list in its own spelling
  (`ListEditor.ToggleTwice`, `ToggleMovesToEnd`).

One step of the code turns out to be idle: the last replacement of the slug normaliser never changes anything
(`TenantNames.SlugIsWords`).

## Model

| member | source | states |
|---|---|---|
| DelimitedLine.SplitDelimitedLine | apps/web/lib/csv-import.ts:121-152 | the scanning loop with one-character look-ahead yields the trimmed, unescaped pieces of the parity specification |
| DelimitedLine.ScanMeetsParity | apps/web/lib/csv-import.ts:121-152 | the automaton, for every line, cuts and unescapes as counting quotes alone would |
| DelimitedLine.SegmentsIsParityCut | apps/web/lib/csv-import.ts:127-148 | the pieces joined by the delimiter are the line, none holds a delimiter outside quotes, and all before the last hold evenly many quotes |
| DelimitedLine.ParityCutUnique | apps/web/lib/csv-import.ts:127-148 | no other list of pieces has those properties |
| DelimitedLine.OddIsCounted | apps/web/lib/csv-import.ts:127-138 | the parity that decides is that of the number of quote characters |
| DelimitedLine.FieldCount | apps/web/lib/csv-import.ts:141-151 | there is one field more than there are delimiters with evenly many quotes before them |
| DelimitedLine.UnescapeExact | apps/web/lib/csv-import.ts:131-146 | before trimming a field holds, in order, exactly the characters of its piece that are no quotes and the quotes that directly follow a quote with an even number of quotes before them |
| DelimitedLine.SplitConcat | apps/web/lib/csv-import.ts:121-152 | splitting a, delimiter, b with evenly many quotes in a is splitting a and then b |
| DelimitedLine.LineRoundTrip | apps/web/lib/csv-import.ts:131-146 | a line printed with every cell quoted and quotes doubled reads back as its cells trimmed, so as itself exactly when they were trimmed |
| DelimitedLine.HiddenDelimitersScoreZero | apps/web/lib/csv-import.ts:168-172 | another delimiter sees a printed line as one field: delimiters inside quotes score nothing |
| DelimitedTable.DetectImportDelimiter | apps/web/lib/csv-import.ts:154-175 | the scoring loops, updating the entries in place, choose the head of the sorted scores |
| DelimitedTable.AddLineScores | apps/web/lib/csv-import.ts:168-172 | the inner loop adds each delimiter's field count less one to its own entry and touches no other |
| DelimitedTable.DetectedIsArgmax | apps/web/lib/csv-import.ts:162-174 | detection chooses exactly the delimiter with the most places outside quotes in the sample, ties going to tab, then semicolon, then comma, and the fall-back comma is never reached |
| Text.TrimWindow | apps/web/lib/csv-import.ts:142 | trimming keeps one window of the text, with only white space before and behind it and none at its ends; it is empty exactly for a blank text |
| Text.SpacesAre | apps/web/lib/csv-import.ts:142 | the characters that trimming removes, one by one |
| TableText.LinesCutText | apps/web/lib/csv-import.ts:237 | the lines are the text cut at every line feed, each time with the carriage return right before it |
| TableText.ContentExact | apps/web/lib/csv-import.ts:237-239 | the lines that count are exactly the ones that are not blank, in order, each a prefix of its line that ends in a visible character and leaves only white space behind |
| TableText.TableOfText | apps/web/lib/csv-import.ts:234-259 | the table of any text, quoted or not: one byte order mark dropped, the text cut into lines, header and rows the fields of the lines that count, under the delimiter that stands outside quotes most often in the first three; none exactly when fewer than two lines count |
| StableSort.HeadIsFirstBest | apps/web/lib/csv-import.ts:174 | a stable sort puts the earliest of the best elements first |
| StableSort.SortCorrect | apps/web/lib/csv-import.ts:174 | the sort permutes its input and orders it |
| StableSort.SortStable | apps/web/lib/csv-import.ts:174 | elements that compare equal keep their order throughout the list |
| StableSort.SortKeepsTies | apps/web/lib/csv-import.ts:174 | elements of rising rank that compare equal stand by rank after sorting |
| DelimitedTable.PrintedTableLines | apps/web/lib/csv-import.ts:155-160 | through byte order mark, either line end and final line end, parser and detector both see exactly the printed lines |
| DelimitedTable.LineFeedsAddRows | apps/web/lib/csv-import.ts:236-247 | with a line feed in some cell at least one row more is read than was printed |
| DelimitedTable.TableRoundTrip | apps/web/lib/csv-import.ts:234-259 | a printed table with ragged rows and any quotes or delimiters in its cells comes back trimmed and with its delimiter, if and only if no cell holds a line feed and that delimiter is the tab or one of the first three lines has two cells |
| DelimitedTable.TrimmedTableRoundTrip | apps/web/lib/csv-import.ts:234-259 | with trimmed cells the table itself comes back, under the same condition |
| DelimitedTable.SingleColumnMisread | apps/web/lib/csv-import.ts:234-259 | a one-column table printed with commas does not come back as one |
| PlainTable.PlainLineSplit | apps/web/lib/csv-import.ts:121-152 | a line printed without quotes is cut into its cells, empty ones included |
| PlainTable.PlainRoundTrip | apps/web/lib/csv-import.ts:154-259 | a table printed without quotes, ragged and with empty leading cells, comes back if and only if every cell is trimmed, every line keeps its last cell, and its delimiter prevails by number in the first three lines |
| PlainTable.LastCellLost | apps/web/lib/csv-import.ts:238 | a concrete tabbed table with an empty last cell does not come back |
| Experience.PrintedNumberFound | apps/web/lib/csv-import.ts:193-209 | a printed natural number is read back from any text with no digit before it and no digit, point or comma behind it |
| Experience.PrintedDecimalFound | apps/web/lib/csv-import.ts:198 | a decimal number with point or comma is read whole and rounded, except that an earlier comma costs it its fraction |
| Experience.EarlierCommaCostsFraction | apps/web/lib/csv-import.ts:198 | "about, 4,9" is read as 4 |
| Experience.RoundedWithinHalf | apps/web/lib/csv-import.ts:203-208 | the result is within one half of the number written, and a half is rounded up |
| Experience.NoNumber | apps/web/lib/csv-import.ts:193-201 | a text is no number exactly when it holds no digit |
| CandidateImport.FindColumn | apps/web/lib/csv-import.ts:177-182 | the column is the first header that equals an alias after normalisation, and none is found exactly when no header does |
| CandidateImport.FieldsAreCells | apps/web/lib/csv-import.ts:184-191 | every text of a candidate is the trimmed cell of its own column, absent exactly when the column is missing, the row too short or the cell blank; the years are the number in theirs |
| CandidateImport.CandidatesAreNamedRows | apps/web/lib/csv-import.ts:305-314 | the candidates are the images, in order, of exactly the rows whose name has two or more UTF-16 units |
| CandidateImport.ColumnsAreFirstMatches | apps/web/lib/csv-import.ts:282-287 | each of the six fields is read from the first header that matches its own alias list, and nothing is read without a header for the name |
| CandidateImport.RowsAreImported | apps/web/lib/csv-import.ts:261-330 | whatever text reads as a table, its rows are imported as the candidates they show, in order |
| CandidateImport.ImportInvertsExport | apps/web/lib/csv-import.ts:261-330 | rows that show candidates under recognised headers, in any order and among any other columns, printed with any delimiter and layout, are read back as those candidates in order |
| CandidateImport.ImportInvertsPlainExport | apps/web/lib/csv-import.ts:261-330 | so are those of a table printed without quotes |
| Keyed.KeptInOrder | apps/web/lib/csv-import.ts:305-314 | a filter keeps exactly the passing elements, in order |
| LabelList.SplitListProper | apps/web/components/sourcing-ingestion-panel.tsx:123-125 | the labels read are trimmed, non-empty, free of separators and pairwise different |
| LabelList.PiecesWoven | apps/web/components/sourcing-ingestion-panel.tsx:124 | the pieces are the text cut at its commas, line feeds, bars and slashes: woven with these they give it back, and none holds one |
| LabelList.SplitListExact | apps/web/components/sourcing-ingestion-panel.tsx:123-125 | the labels are exactly the non-empty trimmed pieces, each at its first occurrence and in that order |
| LabelList.ShowThenSplit | apps/web/components/sourcing-ingestion-panel.tsx:732-737 | a list shown with `", "` and read back is the same list exactly when it is proper |
| LabelList.FieldFixpoint | apps/web/components/sourcing-ingestion-panel.tsx:732-737 | whatever is typed, what the field then shows reads back as the same list |
| LeadImport.LastColumn | apps/web/components/sourcing-ingestion-panel.tsx:134-139 | finds the last column that is mapped to the field and not blank in the row |
| LeadImport.ReadLead | apps/web/components/sourcing-ingestion-panel.tsx:130-156 | assigning column by column leaves every field with the reading of its last non-blank mapped column, the name at first empty, and no other field |
| LeadImport.BuildLeads | apps/web/components/sourcing-ingestion-panel.tsx:127-159 | the loop over the rows keeps the leads that have a valid name |
| LeadImport.LeadsAreNamedRows | apps/web/components/sourcing-ingestion-panel.tsx:127-159 | the leads are those of exactly the rows whose name has two or more UTF-16 units, in order |
| LeadImport.LeadExact | apps/web/components/sourcing-ingestion-panel.tsx:130-156 | a lead holds for every field the reading of the last non-blank column mapped to it, as years, labels or text by field, and no other field; an unset name is empty |
| LeadImport.LeadReadBack | apps/web/components/sourcing-ingestion-panel.tsx:141-152 | trimmed texts, years printed in decimal and lists printed with `", "` are read back |
| LocaleSlot.VisitSettles | apps/web/components/site-language-provider.tsx:54-101 | a visited slot shows the translation of its cached source, and a second visit in the same locale changes nothing |
| LocaleSlot.SwitchesPathIndependent | apps/web/components/site-language-provider.tsx:397-415 | between outside writes the display depends on the source and the last locale only, whatever switches led there |
| LocaleSlot.HarmlessExactly | apps/web/components/site-language-provider.tsx:62-71 | a missed switch is harmless exactly when there is no cached source, the display is the source, or the source shows it in both locales or in neither |
| LocaleSlot.LiveFaithful | apps/web/components/site-language-provider.tsx:54-101 | each event keeps a slot on its author's text, a missed switch exactly when it is harmless, and a visit shows the one translation of that text |
| LocaleSlot.NeverTranslatedTwice | apps/web/components/site-language-provider.tsx:54-140 | along any run whose missed switches are harmless, the display is the author's text or one translation of it, even if translating is not idempotent |
| LocaleSlot.MeaningExact | apps/web/components/site-language-provider.tsx:62-71 | a write is taken for itself exactly when it is not what another cached source shows in the current locale |
| LocaleSlot.LastWriteKept | apps/web/components/site-language-provider.tsx:54-140 | after a write that does not collide the display is the written text or one translation of it until the next write, along missed switches that are harmless |
| LocaleSlot.CollidingWriteMistaken | apps/web/components/site-language-provider.tsx:62-71 | a concrete write that is taken for the cached source |
| LocaleSlot.MissedPassExact | apps/web/components/site-language-provider.tsx:62-71 | after a missed switch the next pass takes the author's text as source exactly when the miss was harmless, also with an outside write not yet flushed |
| LocaleSlot.MissedPassKeepsSource | apps/web/components/site-language-provider.tsx:62-71 | for a slot that shows its source: exactly when both locales show it alike or it shows the source itself |
| LocaleSlot.WriteLostWhenHidden | apps/web/components/site-language-provider.tsx:62-71 | a concrete run in which a write that was not flushed is lost in a missed switch |
| LocaleSlot.TranslatedTwiceWhenHidden | apps/web/components/site-language-provider.tsx:62-71 | a concrete run in which a slot hidden during a switch is translated twice |
| LocaleDocument.VisitDisjoint | apps/web/components/site-language-provider.tsx:142-184 | visiting one set of slots after another disjoint one comes to visiting them together |
| LocaleDocument.VisitOverlapping | apps/web/components/site-language-provider.tsx:455-463 | in the current locale overlapping visits, in any order and number, come to one visit each |
| LocaleDocument.OwnWritesLeadBack | apps/web/components/site-language-provider.tsx:425-437 | the records of a pass's own writes lead only to slots that pass has visited |
| LocaleDocument.FeedbackDiesOut | apps/web/components/site-language-provider.tsx:417-470 | without outside changes one delivery and flush settle the document, the next flush writes nothing, and then the session is quiet for good |
| LocaleDocument.OwnStepSettles | apps/web/components/site-language-provider.tsx:417-470 | a delivery or frame that writes uses up one of at most two frames that may |
| LocaleDocument.FewFramesWrite | apps/web/components/site-language-provider.tsx:417-470 | in any schedule of deliveries and frames without outside changes at most two frames write, none when everything recorded and pending is settled |
| LocaleDocument.SwitchIsCoherent | apps/web/components/site-language-provider.tsx:397-417 | a locale switch leaves every visible slot showing its source in the new locale |
| LocaleDocument.StepCovers | apps/web/components/site-language-provider.tsx:392-487 | every step keeps each visible slot either coherent or awaited by a record or pending node |
| LocaleDocument.RunCovers | apps/web/components/site-language-provider.tsx:392-487 | so does every run |
| LocaleDocument.QuietIsCoherent | apps/web/components/site-language-provider.tsx:392-487 | whenever an observed session is quiet, every visible slot shows its source in the current locale |
| LocaleDocument.LateTextStaysRaw | apps/web/components/site-language-provider.tsx:417-421 | in the default locale a text that enters after the pass stays as written through any deliveries and frames, and is coherent only if blank or what a cached source shows |
| LocaleDocument.AddedTextStaysRaw | apps/web/components/site-language-provider.tsx:417-421 | a concrete text that stays raw although its rendering in the default locale differs |
| LocaleHistory.RunIsLife | apps/web/components/site-language-provider.tsx:392-487 | a run of the whole document and the projected life of one slot agree on display, source and locale |
| LocaleHistory.SlotShowsAuthor | apps/web/components/site-language-provider.tsx:373-487 | from any reachable point, through any changes, switches, deliveries and flushes, a slot that stays and misses switches only harmlessly never holds more than one translation of its author's text, and once quiet it shows exactly that text in the current locale |
| LocaleHistory.PageShowsAuthor | apps/web/components/site-language-provider.tsx:373-487 | the same from mounting on a fresh page |
| LocaleHistory.LastWriteShows | apps/web/components/site-language-provider.tsx:373-487 | for a text that enters or changes at any later time, also one that comes back with a cached source: what shows is the last written text, or its one translation once quiet, exactly unless that write collides with a cached source |
| LocaleOptOut.PathIsAncestry | apps/web/components/site-language-provider.tsx:39-52 | a path holds exactly the nodes at the end of a chain of parents |
| LocaleOptOut.OptedOutUntouched | apps/web/components/site-language-provider.tsx:39-52 | a switch, a delivery or a frame changes neither text nor cached source of a slot below an opt-out attribute or one of the five tags |
| LocaleOptOut.OptedOutShowsItself | apps/web/components/site-language-provider.tsx:373-487 | over any run, outside changes included, such a slot shows what the page wrote last and never gets a cached source |
| LocaleOptOut.SwitchVisitsExactly | apps/web/components/site-language-provider.tsx:397-415 | a switch settles source and translation of exactly the texts and attributes below the body that are not opted out, blank texts excepted, and changes no other |
| LocaleOptOut.FrameVisitsExactly | apps/web/components/site-language-provider.tsx:447-469 | so does a frame below the pending nodes |
| LocaleOptOut.RecordsExactly | apps/web/components/site-language-provider.tsx:397-469 | a switch forgets what was recorded or pending and observes unless the locale is the default one; a frame records exactly the nodes whose texts it changed |
| LanguageProvider.Provider.IsInSkippedTree | apps/web/components/site-language-provider.tsx:39-52 | the walk upwards finds exactly whether the node or something above it opts out or has one of the five tags |
| LanguageProvider.Provider.Render | apps/web/components/site-language-provider.tsx:88-100 | resolving, caching, translating and writing only a change visits that slot and no other, and records exactly its own write |
| LanguageProvider.Provider.ApplyLocaleToTextNode | apps/web/components/site-language-provider.tsx:74-101 | visits the text node's slot unless it is blank or in a skipped tree |
| LanguageProvider.Provider.ApplyLocaleToAttributes | apps/web/components/site-language-provider.tsx:103-140 | visits each transformable attribute of a visible element once |
| LanguageProvider.Provider.ApplyLocaleToElementTree | apps/web/components/site-language-provider.tsx:142-184 | root, text walker and descendant loop together visit every visible slot at or below the root exactly once |
| LanguageProvider.Provider.ApplyLocaleToNode | apps/web/components/site-language-provider.tsx:186-214 | visits what a text node or element reaches, also below a detached element that the document value still holds; any other node reaches nothing |
| LanguageProvider.Provider.RunTransform | apps/web/components/site-language-provider.tsx:397-415 | one pass over the body from the previous locale to the current one, nothing while a pass is under way |
| LanguageProvider.Provider.constructor | apps/web/components/site-language-provider.tsx:380-423 | mounting runs one pass and starts observing unless the locale is the default one |
| LanguageProvider.Provider.SetLocale | apps/web/components/site-language-provider.tsx:392-487 | choosing a locale is the switch step: old records, pending nodes and frame are dropped, the body is passed over, a new observer starts unless the locale is the default one |
| LanguageProvider.Provider.DeliverMutations | apps/web/components/site-language-provider.tsx:425-447 | the observer callback is the delivery step |
| LanguageProvider.Provider.FlushPending | apps/web/components/site-language-provider.tsx:447-469 | the animation frame is the flush step, whatever the order and nesting of the pending nodes |
| LanguageProvider.Provider.VisitPending | apps/web/components/site-language-provider.tsx:455-463 | its loop visits exactly the union of what the pending nodes reach |
| LanguageProvider.Provider.PageChanges | apps/web/components/site-language-provider.tsx:472-478 | a change by the rest of the page is the outside step: its mutations are queued while the observer is on |
| CommandLine.ParseArgs | scripts/provision-pilot-account.ts:35-65 | the loop that skips a word taken as a value computes the recursive reading of the words |
| CommandLine.OptionsRoundTrip | scripts/provision-pilot-account.ts:35-65 | any command line of printable options and skipped words is read back: under each key what its last option says, and nothing else; a consumed value never costs the option after it |
| CommandLine.InlineValueExact | scripts/provision-pilot-account.ts:46-51 | an inline value comes back if and only if it holds no `=` and the key is not `__proto__` |
| CommandLine.SpacedValueExact | scripts/provision-pilot-account.ts:53-61 | a spaced value comes back if and only if it is non-empty, does not start with `--` and the key is not `__proto__` |
| TenantNames.SlugIsWords | scripts/provision-pilot-account.ts:160-173 | a slug is the maximal runs of `[a-z0-9]` of the lower-cased name, its six Turkish letters made Latin, joined by single dashes; the last replacement never changes anything |
| TenantNames.SlugIdempotent | scripts/provision-pilot-account.ts:160-173 | a slug is its own slug |
| TenantNames.ResolveTenantId | scripts/provision-pilot-account.ts:203-243 | the probing loop computes the explicit id, the plain id or the first free suffixed one |
| TenantNames.TenantIdIsFree | scripts/provision-pilot-account.ts:203-243 | a given id is taken; without one the id is free, `ten_` and the slug or that with the least free suffix from 2, and the search fails exactly when all 9999 names are taken |
| TenantNames.AllTakenIsMany | scripts/provision-pilot-account.ts:223-242 | the names tried differ, so failure means at least 9999 tenants |
| Calendar.MonthLength | scripts/provision-pilot-account.ts:175-181 | month 0 of 1970 starts on day 0 and each month where the one before ends, by the month lengths and leap years of the Gregorian calendar |
| Calendar.MonthOfInstant | scripts/provision-pilot-account.ts:175-181 | an instant lies, to the millisecond, in the month that its year and month name |
| Calendar.WindowLength | scripts/provision-pilot-account.ts:175-181 | every window is one calendar month of 28 to 31 days, that of the instant but nineteen centuries later for the years 0 to 99 |
| Calendar.WindowContains | scripts/provision-pilot-account.ts:175-181 | a window contains its instant if and only if the year is not one of 0 to 99 |
| Calendar.WindowsTile | scripts/provision-pilot-account.ts:175-181 | an instant inside another's window has the same window, so windows never overlap |
| Calendar.NextWindowStarts | scripts/provision-pilot-account.ts:179-181 | the next window starts where this one ends, except after December of the year -1 |
| Calendar.EarlyYearMisplaced | scripts/provision-pilot-account.ts:175-181 | January of the year 50 is given a window of 1950 |
| Calendar.YearMinusOneBreaks | scripts/provision-pilot-account.ts:179-181 | after December of the year -1 the next window does not start where that one ends |
| Provisioning.RunKeepsConsistent | scripts/provision-pilot-account.ts:413-760 | every run, whatever its arguments and outcome, keeps ids and addresses of users unique and grants on their tenant's account |
| Provisioning.RunAddsNewGrants | scripts/provision-pilot-account.ts:643-672 | a run keeps all stored grants and never stores one that is stored already, whatever duplicates there were |
| Provisioning.OpenInvitationsAfterRun | scripts/provision-pilot-account.ts:674-712 | a user whose link a run issued has exactly one open invitation, every other as many as before |
| Provisioning.AfterRun | scripts/provision-pilot-account.ts:479-760 | on any tables, after a completed run the tenant is active with exactly one live subscription, the account is in the window of the run, and the owner is active with a password or invited with none and exactly one open invitation |
| Provisioning.FirstRunCompletes | scripts/provision-pilot-account.ts:413-760 | a complete request without a tenant id from a known actor goes through on a new tenant with a new, invited owner exactly when one of the 9999 names is free |
| Provisioning.BillingAfterRun | scripts/provision-pilot-account.ts:545-618 | the new subscription is open, on the plan, quotas and window of the run and on the tenant's account; exactly the tenant's earlier open ones are closed at the time of the run |
| Provisioning.LinkAndAuditAfterRun | scripts/provision-pilot-account.ts:674-760 | a link goes to the owner's address, comes from an undeleted user with the actor's address, lapses after the requested hours or 72, and revokes exactly the owner's open invitations; each run leaves one completion record, and a link record exactly with a link |
| Provisioning.OtherTenantsUntouched | scripts/provision-pilot-account.ts:479-760 | no row of another tenant changes in any of the seven tables |
| Provisioning.OneLiveSubscription | scripts/provision-pilot-account.ts:579-618 | cancelling and creating leaves the tenant one live subscription and other tenants as many as before |
| Provisioning.OneOpenInvitation | scripts/provision-pilot-account.ts:679-712 | revoking and creating leaves the user one open invitation and everybody else as many as before |
| Provisioning.LiveCountIsNumber | scripts/provision-pilot-account.ts:579-596 | the count of live subscriptions is the number of the tenant's rows that are neither closed nor cancelled |
| Provisioning.OpenCountIsNumber | scripts/provision-pilot-account.ts:679-689 | the count of open invitations is the number of the user's rows that are neither accepted nor revoked |
| ProvisioningEffects.DryRunWritesNothing | scripts/provision-pilot-account.ts:468-471 | a dry run leaves every table as it is and never reports an applied run |
| ProvisioningEffects.AppliedExactly | scripts/provision-pilot-account.ts:333-489 | a run is applied exactly when the texts are given, the plan is known, it is no dry run, a tenant id is found, the owner keeps a password or somebody can invite, and no other user of the tenant has the owner's address |
| ProvisioningEffects.DryRunExactly | scripts/provision-pilot-account.ts:333-471 | a dry run reports the tenant under the same conditions but for the address |
| ProvisioningEffects.DryRunMissesAddress | scripts/provision-pilot-account.ts:468-519 | concrete tables on which the dry run reports a tenant and the run fails |
| ProvisioningEffects.FailureExactly | scripts/provision-pilot-account.ts:333-439 | each failure occurs exactly under its condition, and none writes anything |
| ProvisioningEffects.TenantAndAccountExactly | scripts/provision-pilot-account.ts:479-577 | an applied run sets name, locale, time zone, website, billing address, currency, plan, quotas and window in the rows of its tenant and in no other, and an account keeps its id |
| ProvisioningEffects.UsersExactly | scripts/provision-pilot-account.ts:512-532 | the oldest undeleted owner or address match gets the request's name, address and role, and with a link loses the password; without one a new owner is added; no other row changes |
| ProvisioningEffects.AuthorsExactly | scripts/provision-pilot-account.ts:245-260 | every new row names the oldest undeleted user with the actor's address, or nobody when there is none |
| ProvisioningEffects.GrantsExactly | scripts/provision-pilot-account.ts:620-672 | for each quota one manual row of the quantity and caption asked for is added exactly when the quantity is positive and the account has no such row |
| ProvisioningRuns.AnyRuns | scripts/provision-pilot-account.ts:413-760 | at the end of any sequence of runs the tables are consistent, each tenant provisioned on the way has exactly one live subscription and a ready owner, each user who got a link has exactly one open invitation, and all other counts are as at the start |
| ProvisioningRuns.GrantsAreTheRequestedSet | scripts/provision-pilot-account.ts:620-672 | along any sequence of runs the stored pilot grants are the initial ones and exactly the distinct positive quantities completed runs asked for |
| ProvisioningRuns.AddedGrantsStoredOnce | scripts/provision-pilot-account.ts:643-672 | along any sequence of runs on any tables the old grants stay and no added one equals another, old or new |
| ProvisioningRuns.RepeatHitsSameTenant | scripts/provision-pilot-account.ts:84-87 | repeating a completed run works on the same tenant if and only if the tenant id was given |
| ProvisioningRuns.RepeatMakesAnotherTenant | scripts/provision-pilot-account.ts:203-243 | a first run without a tenant id, given twice, concerns two tenants |
| ProvisioningRuns.RepeatAddsNoGrant | scripts/provision-pilot-account.ts:643-672 | a repetition that names its tenant adds no grant, at once or after any other runs |
| ProvisioningScript.PilotDatabase.RunScript | scripts/provision-pilot-account.ts:320-760 | the script on tables updated in place does what the run function says; a failure or dry run changes nothing |
| ProvisioningScript.PilotDatabase.RunTransaction | scripts/provision-pilot-account.ts:479-760 | the statements of the transaction, one after the other, give its result |
| ProvisioningScript.PilotDatabase.AddManualGrants | scripts/provision-pilot-account.ts:620-672 | the loop adds each positive grant that no stored row already matches |
| ProvisioningScript.PilotDatabase.CancelLiveSubscriptions | scripts/provision-pilot-account.ts:579-596 | closes exactly the tenant's live subscriptions |
| ProvisioningScript.PilotDatabase.RevokeOpenInvitations | scripts/provision-pilot-account.ts:679-689 | revokes exactly the user's open invitations |
| ProvisioningScript.PilotDatabase.ResolveActorUser | scripts/provision-pilot-account.ts:245-260 | finds the oldest undeleted user with the address, in any tenant |
| ProvisioningScript.PilotDatabase.FindExistingOwner | scripts/provision-pilot-account.ts:416-432 | finds the tenant's oldest undeleted user that is an owner or has the owner's address |
| UsageLedger.OrderIsEligible | apps/api/src/modules/billing/billing.service.ts:2287-2314 | the rows to consume are each unexpired add-on or manual grant of the key once; the earlier expiry comes first, grants without expiry after all that have one and by age, ties in order of creation |
| UsageLedger.SettleConserves | apps/api/src/modules/billing/billing.service.ts:2316-2344 | consumption takes exactly what is needed or all there is, only from the key's grants, and overdraws none that was not |
| UsageLedger.SettleInOrder | apps/api/src/modules/billing/billing.service.ts:2316-2340 | a later row is touched only when every earlier one is used up |
| UsageLedger.EarlierExpiryFirst | apps/api/src/modules/billing/billing.service.ts:2278-2345 | a counted report takes only from an unexpired add-on or manual grant of the key, and only when every such grant that expires earlier, or expires at all, or is older among those that never do, is used up |
| UsageLedger.ReportTakesOneUnit | apps/api/src/modules/billing/billing.service.ts:2227-2345 | a counted report consumes nothing within the plan, and beyond it exactly one unit of the first grant in that order which has one left |
| UsageLedger.UsedIsNumber | apps/api/src/modules/billing/billing.service.ts:2797-2834 | the usage is the number of the key's events from the start of the period to before its end |
| UsageLedger.CommitTakes | apps/api/src/modules/billing/billing.service.ts:2241-2275 | a counted transaction adds one event and takes from the key's stock what the usage it had read calls for; any other changes nothing, and none makes a duplicate or an overdraft |
| UsageLedger.PeriodBalances | apps/api/src/modules/billing/billing.service.ts:2227-2345 | along any sequence of reports in a period, duplicates and refusals included, usage beyond the plan equals the units consumed and the units gone from stock |
| UsageLedger.CountedExactly | apps/api/src/modules/billing/billing.service.ts:2227-2345 | a report is refused without access, counts nothing when its unique key is known, and is counted with one event exactly when the allowance is not used up or an unexpired add-on or manual grant has a unit left |
| UsageLedger.CheckMatchesRecord | apps/api/src/modules/billing/billing.service.ts:2194-2215 | the exact inputs on which the check passes and recording refuses, and the exact ones on which it is the other way round, with the allowances of snapshot and subscription kept apart |
| UsageLedger.CheckAgrees | apps/api/src/modules/billing/billing.service.ts:2846-2888 | with equal allowances and no plan-sourced grant the two agree |
| UsageLedger.CheckPassesRecordingRefuses | apps/api/src/modules/billing/billing.service.ts:2955-2972 | a concrete snapshot and subscription on which they disagree |
| UsageLedger.UsageMeter.ConsumeAddOnGrantBalance | apps/api/src/modules/billing/billing.service.ts:2278-2345 | the loop over the sorted grants settles the quantity and fails exactly when some is missing |
| UsageLedger.UsageMeter.CommitUsage | apps/api/src/modules/billing/billing.service.ts:2241-2275 | event and consumption stand or fall together, and a known unique key changes nothing |
| UsageLedger.UsageMeter.RecordUsage | apps/api/src/modules/billing/billing.service.ts:2227-2276 | a blocked account is refused, otherwise the transaction runs on the usage just read |
| UsageRaces.TakeAloneIsCommit | apps/api/src/modules/billing/billing.service.ts:2241-2265 | a transaction that nothing overlaps is the one of the ledger |
| UsageRaces.AloneIsRecord | apps/api/src/modules/billing/billing.service.ts:2227-2276 | from its reading on, a report that nothing overlaps is the one of the ledger |
| UsageRaces.SettleStale | apps/api/src/modules/billing/billing.service.ts:2287-2344 | increments planned from grants read earlier consume what was planned; what the grants no longer had becomes overdraft |
| UsageRaces.OversoldWasConsumed | apps/api/src/modules/billing/billing.service.ts:2287-2340 | a transaction oversells only if a grant was consumed from between its reading and its increments |
| UsageRaces.InterleavedBalance | apps/api/src/modules/billing/billing.service.ts:2234-2344 | along any interleaving of readings, inserts and takes the grants pay for the usage beyond the plan but for one unit for each stale usage reading, consumption leaves the stock but for the units oversold, and no event is counted twice |
| UsageRaces.BalancedExactly | apps/api/src/modules/billing/billing.service.ts:2234-2344 | the period balances if and only if no report is unpaid and nothing is oversold |
| UsageRaces.OverdrawnExactly | apps/api/src/modules/billing/billing.service.ts:2327-2334 | grants of a key end within their quantities if and only if they began so and nothing of the key is oversold |
| UsageRaces.AloneNeverOversells | apps/api/src/modules/billing/billing.service.ts:2287-2340 | nothing of a key is oversold along a run in which no take of the key falls between another report's reading of the grants and its increments |
| UsageRaces.OverlapUnpaid | apps/api/src/modules/billing/billing.service.ts:2234-2265 | a concrete overlap in which both reports count and the add-on keeps its unit |
| UsageRaces.OverlapOversold | apps/api/src/modules/billing/billing.service.ts:2287-2334 | a concrete overlap, without a stale usage reading, in which two units are consumed of one |
| Utf8.DecodeEncode | apps/web/lib/entity-routes.ts:10-23 | decoding the encoded bytes of any text gives it back |
| Utf8.EncodeCharExactly | apps/web/lib/entity-routes.ts:10 | a character is encoded in the shortest form, with marked bytes whose payload bits spell its code point |
| Base64.BytesSextets | apps/web/lib/entity-routes.ts:15-21 | regrouping sextets into bytes undoes grouping bytes into sextets |
| Base64.GroupsExactly | apps/web/lib/entity-routes.ts:15 | each group of three bytes is the same number as its four sextets |
| Base64.AlphabetExactly | apps/web/lib/entity-routes.ts:15 | the sextets are written with the standard alphabet |
| Base64.AtobBtoa | apps/web/lib/entity-routes.ts:15-21 | the padded text of any bytes decodes to them |
| EntityRoutes.ToBase64UrlLoop | apps/web/lib/entity-routes.ts:9-16 | the loop that builds the binary string yields the unpadded base64url of the text's bytes |
| EntityRoutes.UrlEncodeShape | apps/web/lib/entity-routes.ts:15 | the encoded text of n bytes has length ceil(4n/3) and holds none of `+`, `/` and `=` |
| EntityRoutes.UrlDecodeBytes | apps/web/lib/entity-routes.ts:18-22 | with padding restored it decodes to the same bytes, for every byte sequence |
| EntityRoutes.DecodableExactly | apps/web/lib/entity-routes.ts:18-23 | text without blanks and pads decodes exactly when it is over the plain or url alphabet and not one letter too long |
| EntityRoutes.Base64UrlRoundTrip | apps/web/lib/entity-routes.ts:9-24 | text survives if and only if it does not start with a byte order mark |
| EntityRoutes.RouteRoundTrip | apps/web/lib/entity-routes.ts:26-62 | behind one of the five known prefixes a route id leads back to its id if and only if the id is a non-empty string over `[A-Za-z0-9_-]`; behind any other it is left as it is |
| EntityRoutes.RouteIdInjective | apps/web/lib/entity-routes.ts:26-28 | different prefixes or ids never share a route id |
| EntityRoutes.DecodedIsSafeOrUnchanged | apps/web/lib/entity-routes.ts:30-62 | whatever arrives, the result is the text itself or a safe id |
| EntityRoutes.UnchangedIffNotEncoded | apps/web/lib/entity-routes.ts:30-62 | any text passes the decoder unchanged exactly when it is not a known prefix, `_`, and something that decodes to a safe id |
| EntityRoutes.RawIdMisread | apps/web/lib/entity-routes.ts:36-58 | a safe raw id that does read as encoded and is taken for the id it encodes |
| EntityRoutes.CanonicalIsMostRecent | apps/web/lib/entity-routes.ts:93-103 | the pick has the latest change of stage, or else creation, the first listed of several; of an empty list there is none |
| CompetencyDefinitions.CompetencyKeyInjective | apps/web/components/job-editor-form.tsx:105-107 | two keys are equal exactly when category and folded name are |
| CompetencyDefinitions.AddSelected | apps/web/components/job-editor-form.tsx:114-116 | adds the key of every value of a category and nothing else |
| CompetencyDefinitions.AttachSelectedCompetencyDefinitions | apps/web/components/job-editor-form.tsx:109-143 | the loops over set and insertion-ordered map compute the merge of the selected definitions |
| CompetencyDefinitions.MergeExact | apps/web/components/job-editor-form.tsx:123-142 | the merge holds no two definitions of one category and folded name, in the order in which these first occur, only selected ones, and of each the tenant's last or else the profile's last |
| CompetencyDefinitions.MergeCovers | apps/web/components/job-editor-form.tsx:123-142 | every selected definition of either source is covered by one of its category and folded name |
| CompetencyDefinitions.AttachIdempotent | apps/web/components/job-editor-form.tsx:109-143 | attaching again changes nothing |
| Keyed.PutsHoldLast | apps/web/components/job-editor-form.tsx:123-137 | an insertion-ordered map holds the last value put under each key, at the place where the key was put first |
| ListEditor.EditsKeepUnique | apps/web/lib/job-profile.ts:149-161 | appending and toggling keep a list free of entries that agree up to trimming and folding |
| ListEditor.EditsExactly | apps/web/lib/job-profile.ts:149-161 | appending adds the trimmed text unless it is blank or an entry agrees with it; a preset that some entry agrees with takes exactly those out and keeps the rest in order |
| ListEditor.ToggleTwice | apps/web/components/job-editor-form.tsx:164-183 | toggling twice restores the list if and only if the preset was absent or closed the list in its own spelling |
| ListEditor.ToggleMovesToEnd | apps/web/components/job-editor-form.tsx:164-183 | toggling the first of two entries twice does not restore the list |
| JobProfile.NormalizedIsNormal | apps/web/lib/job-profile.ts:95-147 | normalising leaves only trimmed, non-empty texts |
| JobProfile.FixedIffNormal | apps/web/lib/job-profile.ts:95-147 | normalising leaves a profile as it is exactly when all its texts are trimmed and non-empty |
| JobProfile.NormalizeIdempotent | apps/web/lib/job-profile.ts:95-147 | normalising twice is normalising once |
| JobProfile.NormalizeExactly | apps/web/lib/job-profile.ts:49-147 | every part comes from its own place: texts trimmed, lists and definitions the usable ones in order, 15 days and a hidden compensation where nothing else is said |
| UploadList.FileKeyInjective | apps/web/components/bulk-cv-upload-modal.tsx:35 | the key tells files apart, also when names hold colons |
| UploadList.DedupeFiles | apps/web/components/bulk-cv-upload-modal.tsx:32-42 | the filter with its growing set keeps the first file of each key |
| UploadList.DedupeExactly | apps/web/components/bulk-cv-upload-modal.tsx:32-42 | de-duplicating keeps exactly the files that do not occur before, in order |
| UploadList.RemoveExactly | apps/web/components/bulk-cv-upload-modal.tsx:348-356 | removing takes exactly that file out and keeps the others in order |
| Keyed.FirstOfInOrder | apps/web/components/bulk-cv-upload-modal.tsx:32-42 | what is kept is exactly the elements whose key has not occurred before, in order |
| UploadList.DedupeIdempotent | apps/web/components/bulk-cv-upload-modal.tsx:32-42 | de-duplicating twice is de-duplicating once |
| UploadList.AppendKeepsPrefix | apps/web/components/bulk-cv-upload-modal.tsx:171-183 | an append leaves the current list in front as it is |
| UploadList.RunHoldsWanted | apps/web/components/bulk-cv-upload-modal.tsx:171-355 | over any run of appends and removals the list is free of duplicates and holds exactly the files accepted at some point and not removed since |
| UploadList.Upload.AppendFiles | apps/web/components/bulk-cv-upload-modal.tsx:171-183 | with nothing accepted only the error flag changes, otherwise the list is de-duplicated with the accepted files behind it |
| UploadList.Upload.Remove | apps/web/components/bulk-cv-upload-modal.tsx:348-356 | removes every item with the file's key and keeps the rest in order |

## Left out

- Strings are sequences of Unicode scalar values, so lone surrogates cannot occur; `.length` is modelled by
  `Text.Utf16Length` where the code compares it.
- `normalizeImportHeader`, `toLowerCase`, `toLocaleLowerCase("tr-TR")` and the file extension filter are parameters:
  any function, or one that leaves slugs alone for `TenantNames.SlugIdempotent`.
- `transformUiText` is any function; that it keeps empty text is read off apps/web/lib/i18n.ts:4543-4546, that it
  never blanks visible text is a hypothesis of the theorems that name it.
- `Number` and `Math.round` are exact on the decimal digits as written; binary rounding of long fractions and
  overflow to infinity are not modelled.
- The file-name hint `detectImportSource`, the `mappedHeaders` summary, `inferField` and the saved column mappings:
  constant tables and display data.
- The locale provider's two weak maps are one map keyed by text or attribute; the document is a value of parents,
  tags and texts, in which a removed node that is still pending stays without a path to the body. React scheduling,
  exceptions inside a pass and local storage are not modelled. Removing an opt-out attribute is not observed by the
  code, so a run in which that reveals text is not one of the reported runs.
- Instants are unbounded integers: the limits of `Date` and invalid dates are not modelled.
- The `readString`, `readBoolean` and `readInteger` helpers of the script, its defaults, feature flags, plan
  snapshots, metadata, printed summary and artifacts; a plan key that is only an inherited object property, which
  the code's `in` lookup lets through.
- Workspace and prompt defaults (`ensurePilotWorkspaceAndAiDefaults`) are not part of this model.
- Random tokens, their hashes and row ids are fresh numbers; whether the tenant table has a website column is an
  input; the transaction is atomic and runs do not overlap.
- The unique index on tenant and e-mail address (apps/api/prisma/schema.prisma:604) is modelled; other database
  constraints are not.
- Usage reports stay within one billing period and see one allowance for each quota, and no grant is added while they
  run; resolving the billing state, trials, plan changes, payment callbacks and seat counts are left out. Overlapping
  transactions follow PostgreSQL's Read Committed level; deadlocks and lost connections are not modelled.
- `withApiBaseOverride` and the three `href` builders: they only prepend a constant path.
- Server modules other than the usage ledger, scoring, message templates and all rendering.
- LanguageProvider.Provider.FlushPending: requires that translating keeps empty text empty, as the code does.
- ProvisioningRuns.RepeatHitsSameTenant: assumes both runs fold case alike.
