# UiO course-availability bot: the model

This project models the core of a bot that watches the University of Oslo's
list of courses open for enrolment. On each run the bot:

1. reads the course tables from the listing page;
2. synchronises them with its course store;
3. records what appeared and what disappeared;
4. narrows those changes to the courses whose study points the configured
   filter accepts, and notifies the configured recipients.

The model covers these parts:

- **`Points`, `Settings`, `Contacts`** (src/config.rs): the points filter
  and its expression language, the recipient lists, and the configuration
  checks. This includes the email address check, the extraction of the
  sender address, and the two phone normalisers.
- **`CourseScraper`** (src/course_scraper.rs): the record extractor. It works
  over an abstract document, given as the headings and tables of the content
  area.
- **`Db`** (src/db.rs): the course store as a class.
  - `Database` holds the `courses` table as a map keyed by course code, and
    two more maps for the first-seen and last-seen times.
  - The `change_log` and `run_log` tables are append-only sequences whose ids
    count from 1.
  - Its methods are the store's operations. `SyncCourses` is proved to leave
    the store holding exactly the incoming courses, and to report and log
    exactly the codes that came and went.
- **`Diff`** (src/diff.rs): the change filter.
- **`Models`** (src/models.rs): the value types.
- **`Web`** (src/web.rs): HTML escaping and the display form of timestamps.

Helper modules:

- `Strings`: trimming, searching, splitting and replacing, with the standard
  library's meaning.
- `Numbers`: the decimal forms of number parsing.
- `Lists`: `filter`, `filter_map` and `find` over sequences.
- `Wrappers`: `Option` and `Result`.

Study points are exact rationals (`real`).

## Model

| member | source | states |
|---|---|---|
| Points.PointsFilter.Description | src/config.rs:546-557 | the description is "all courses" exactly for `None` and for a range with no bound |
| Points.MatchesMeaning | src/config.rs:534-544 | `matches` as intervals: `None` and an unbounded range accept all; `Exact(v)` accepts the open interval v ± 0.01; range bounds are inclusive, each present bound checked |
| Points.PointsFilter.Matches | src/config.rs:534-544 | `Exact(v)` accepts exactly the points in the open interval v ± 0.01 |
| Points.RangeRule | src/config.rs:324-338 | the `a-b` rule yields only a range with both bounds |
| Points.LowerBound | src/config.rs:340-358 | a parsed number becomes a range with only that lower bound, and no number means the rule does not apply |
| Points.UpperBound | src/config.rs:360-377 | a parsed number becomes a range with only that upper bound, and no number means the rule does not apply |
| Points.AtLeastRule | src/config.rs:341-345 | the `>=x` rule yields only ranges |
| Points.GreaterRule | src/config.rs:346-351 | the `>x` rule yields only ranges |
| Points.PlusRule | src/config.rs:353-358 | the `x+` rule yields only ranges |
| Points.AtMostRule | src/config.rs:360-365 | the `<=x` rule yields only ranges |
| Points.LessRule | src/config.rs:366-370 | the `<x` rule yields only ranges |
| Points.MinusRule | src/config.rs:372-377 | the `x-` rule yields only ranges |
| Points.ExactRule | src/config.rs:379-382 | a bare number gives `Exact` of its value exactly when the text parses as a number |
| Points.ParsePointsFilterExpr | src/config.rs:317-386 | no filter is returned only when the trimmed text is no number; an `Exact` result holds the value the trimmed text parses to |
| Points.BlankExpression | src/config.rs:318-322 | the expression means "no filter" exactly when it is blank after trimming |
| Points.NoRuleGivesNoFilter | src/config.rs:324-385 | a non-blank expression never yields `None` |
| Points.NumeralEscapesEarlierRules | src/config.rs:324-377 | a plain numeral escapes every rule before the exact rule |
| Points.NumeralIsNoRange | src/config.rs:324-338 | a text that parses as a number is never read as a range |
| Points.ExactOnlyFromExactRule | src/config.rs:379-382 | `Exact` comes only from the last rule |
| Points.BareNumberIsExact | src/config.rs:317-386 | the expression gives `Exact(v)` if and only if its trimmed text parses as v |
| Points.RangeRuleSilent | src/config.rs:324-338 | an expression starting with a comparison sign is no range |
| Points.RangeRuleNeedsInnerDash | src/config.rs:325-327 | a '-' only at the first or last position gives no range |
| Points.AtLeastExpression | src/config.rs:341-345 | `>=x` gives the lower bound x |
| Points.GreaterExpression | src/config.rs:346-351 | `>x` gives the inclusive lower bound x: no offset is applied |
| Points.PlusExpression | src/config.rs:353-358 | `x+` gives the lower bound x |
| Points.AtMostExpression | src/config.rs:360-365 | `<=x` gives the upper bound x |
| Points.LessExpression | src/config.rs:366-370 | `<x` gives the inclusive upper bound x |
| Points.MinusExpression | src/config.rs:372-377 | `x-` gives the upper bound x |
| Points.RangeExpression | src/config.rs:324-338 | `a-b`, with no dash in a and numbers on both sides, gives the closed range [a, b] |
| Points.ExampleExactDecimal | src/config.rs:620-621 | `"2.5"` gives `Exact(2.5)` |
| Points.ExampleExactWhole | src/config.rs:623-624 | `"10"` gives `Exact(10)` |
| Points.ExampleAtLeast | src/config.rs:629-630 | `">=5"` gives a lower bound of 5 |
| Points.ExamplePlus | src/config.rs:632-633 | `"5+"` gives a lower bound of 5 |
| Points.ExampleGreater | src/config.rs:635-636 | `">5"` gives a lower bound of 5 |
| Points.ExampleAtMost | src/config.rs:641-642 | `"<=10"` gives an upper bound of 10 |
| Points.ExampleLess | src/config.rs:644-645 | `"<10"` gives an upper bound of 10 |
| Points.ExampleMinus | src/config.rs:647-648 | `"10-"` gives an upper bound of 10 |
| Points.ExampleWholeRange | src/config.rs:653-658 | `"5-10"` gives the range [5, 10] |
| Points.ExampleDecimalRange | src/config.rs:660-665 | `"2.5-7.5"` gives the range [2.5, 7.5] |
| Points.BlankExamples | src/config.rs:670-674 | `""` and `"  "` give no filter |
| Settings.Config.EmailRecipients | src/config.rs:126-136 | no `email_to` gives no recipients |
| Settings.Config.SmsRecipients | src/config.rs:149-158 | no `sms_to` gives no recipients |
| Settings.RecipientsArePipelines | src/config.rs:126-158 | each recipient list is its split, trim and filter (or `filter_map`) pipeline over the comma-separated setting |
| Settings.AddressesOfList | src/config.rs:126-136 | an address is a recipient exactly when it is the trimmed, non-empty form of some entry |
| Settings.NumbersOfList | src/config.rs:149-158 | a number is a recipient exactly when it is the Norwegian normal form of some trimmed entry |
| Settings.EnabledMeaning | src/config.rs:139-163 | email is enabled exactly when some entry is not blank; SMS is enabled exactly when some entry is a valid Norwegian number |
| Settings.EmailProblemIsReal | src/config.rs:213-247 | every email error reported names a real problem: a missing sender, an invalid recipient, or an invalid sender address |
| Settings.SmsProblemIsReal | src/config.rs:249-284 | every SMS error reported names a real problem; the "no valid numbers" error is never reported |
| Settings.EmailProblemMeaning | src/config.rs:213-247 | with the sender read by the corrected extraction, the email checks pass exactly when the email settings are acceptable |
| Settings.SmsProblemMeaning | src/config.rs:249-284 | the SMS checks pass exactly when SMS is disabled or a sender Twilio accepts is set |
| Settings.AcceptableValidates | src/config.rs:166-287 | a configuration that meets every requirement passes the corrected `validate` |
| Settings.ValidateMeaning | src/config.rs:166-287 | the corrected `validate` succeeds if and only if every requirement holds |
| Settings.ValidateErrorsAreReal | src/config.rs:166-287 | each error `validate` returns names a requirement the configuration breaks |
| Settings.Config.Validate | src/config.rs:166-287 | the checks in the source's order, with the sender read by the corrected extraction; the "no valid Norwegian numbers" error is never returned |
| Settings.ValidateAsWrittenMeaning | src/config.rs:166-287 | the source's `validate` panics exactly when the sender check is reached with a sender whose first '>' comes before its first '<'; otherwise it returns what the corrected `validate` returns |
| Settings.ValidateAsWrittenAccepts | src/config.rs:166-287 | the source's `validate` succeeds exactly when every requirement holds and the sender does not make the extraction panic |
| Settings.SenderSplitsValidate | src/config.rs:213-247 | with one valid recipient and a sender that the written extraction panics on but the corrected one accepts, the source panics where the corrected `validate` succeeds |
| Settings.ValidateAsWrittenPanicExample | src/config.rs:237-239 | `email_to = a@b.com` with `email_from = >a<b@c.d`: the source's `validate` panics, the corrected one succeeds |
| Settings.ValidateRejectsBadPoints | src/config.rs:196-211 | once the URL and database checks pass (any http or https URL; no database URL, or a libsql or https one with a token), min above max is rejected, and otherwise a negative exact value is rejected |
| Settings.ValidateRejectsUrlFirst | src/config.rs:167-173 | a URL without an http(s) scheme is rejected before anything else is checked |
| Settings.ExpressionTakesPrecedence | src/config.rs:289-295 | an expression that parses decides the filter, whatever the flags say |
| Settings.FlagsWhenNoExpression | src/config.rs:297-307 | without a parsable expression, the exact flag decides if set, then the bounds; with no flags there is no filter |
| Settings.Config.Filter | src/config.rs:289-308 | the result is "no filter" only when no points flag is set or the expression is blank |
| Settings.PrecedenceExample | src/config.rs:677-698 | expression `2.5` together with exact flag 10 gives `Exact(2.5)` |
| Settings.EmailRecipientsExample | src/config.rs:592-616 | `"a@b.com, c@d.com, e@f.com"` gives the three addresses |
| Settings.ValidateInterval | src/config.rs:515-524 | an interval passes exactly when it is at least 10 seconds, and otherwise the error carries the interval |
| Contacts.ValidEmailMeaning | src/config.rs:389-415 | an address is valid exactly when its trimmed form has one '@', something before it, and a dot after it |
| Contacts.ValidEmailOfParts | src/config.rs:389-415 | a local part and a dotted domain around one '@' make a valid address |
| Contacts.NoDotInDomain | src/config.rs:409-412 | without a dot after the '@' an address is rejected |
| Contacts.NothingBeforeAt | src/config.rs:404-407 | an address with nothing before the '@' is rejected |
| Contacts.ValidEmailExample | src/config.rs:566 | `user@example.com` is valid |
| Contacts.NoDomainDotExample | src/config.rs:572 | `user@localhost` is rejected |
| Contacts.NoLocalPartExample | src/config.rs:570 | `@example.com` is rejected |
| Contacts.EmptyEmailExample | src/config.rs:573 | the empty string is rejected |
| Contacts.AsWrittenPanics | src/config.rs:418-426 | the written extraction panics exactly when both brackets occur and the first '>' comes before the first '<' |
| Contacts.AsWrittenPanicExample | src/config.rs:420-422 | the sender `>a<b@c.d` makes the written extraction panic |
| Contacts.ExtractEmail | src/config.rs:418-426 | the corrected extraction always gives a result, and it is never longer than the sender |
| Contacts.ExtractEmailAsWritten | src/config.rs:418-426 | wherever the written extraction does not panic, it gives the address the corrected one gives |
| Contacts.ReversedSenderTakenWhole | src/config.rs:418-426 | the corrected extraction returns `>a<b@c.d` whole, since no '>' follows its '<' |
| Contacts.ReversedSenderExample | src/config.rs:389-415 | `>a<b@c.d` passes the address check |
| Contacts.PlainRecipientExample | src/config.rs:389-415 | `a@b.com` is trimmed, has no comma, and passes the address check |
| Contacts.ExtractNamedAddress | src/config.rs:418-426 | the corrected extraction gives the trimmed address of a `Name <address>` sender |
| Contacts.ExtractWithoutBrackets | src/config.rs:418-426 | a trimmed sender without '<' is returned as it is |
| Contacts.NamedSenderExample | src/config.rs:578-581 | `UiOBot <bot@example.com>` gives `bot@example.com` |
| Contacts.BareSenderExample | src/config.rs:582-585 | `bot@example.com` gives itself |
| Contacts.CleanPhoneIsClean | src/config.rs:434 | cleaning leaves no whitespace and no dash |
| Contacts.CleanPhoneOfClean | src/config.rs:434 | a clean string is left as it is |
| Contacts.CleanPhoneConcat | src/config.rs:434 | cleaning works character by character |
| Contacts.TwilioMeaning | src/config.rs:432-463 | a number is accepted exactly when its cleaned form is `+1` and ten digits, or `+47` and eight digits starting 2-9; the result is the cleaned form |
| Contacts.NormalizeTwilioPhone | src/config.rs:432-463 | an accepted number comes back in its cleaned form, and that form is a number Twilio can send from |
| Contacts.TwilioFixpoint | src/config.rs:432-463 | a Twilio number is its own normal form |
| Contacts.TwilioIdempotent | src/config.rs:432-463 | normalising an accepted number again changes nothing |
| Contacts.TwilioNeedsPlus | src/config.rs:436-439 | digits without a leading '+' are rejected |
| Contacts.TwilioLength | src/config.rs:448-462 | digit counts other than 10 and 11 are rejected |
| Contacts.TwilioUnitedStatesExample | src/config.rs:734 | `+12025551234` is accepted as it is |
| Contacts.TwilioMissingPlusExample | src/config.rs:744 | `4741234567` is rejected |
| Contacts.TwilioUnitedKingdomExample | src/config.rs:752 | `+442071234567` is rejected |
| Contacts.NormalizeNorwegianPhone | src/config.rs:468-512 | every result is `+47` followed by eight digits, the first of them 2-9 |
| Contacts.NorwegianMeaning | src/config.rs:468-512 | the accepted inputs without the branch structure: optional `+`, optional `47`, then eight digits starting 2-9 |
| Contacts.NorwegianFixpoint | src/config.rs:468-512 | a canonical Norwegian number is its own normal form |
| Contacts.NorwegianIdempotent | src/config.rs:468-512 | normalising a normalised number changes nothing |
| Contacts.NorwegianIsTwilio | src/config.rs:432-512 | every recipient number kept is also a number Twilio accepts |
| Contacts.NorwegianEightDigits | src/config.rs:491-511 | eight digits are accepted exactly when the first is 2-9, and become `+47` and those digits |
| Contacts.NorwegianForeignCode | src/config.rs:484-496 | `+` and ten digits not starting with 47 are rejected |
| Contacts.NorwegianOfCleaned | src/config.rs:470 | only the cleaned form of a number matters |
| Contacts.CleanDashed | src/config.rs:470 | dashes between digit groups are dropped |
| Contacts.NorwegianEightDigitExample | src/config.rs:705 | `41234567` gives `+4741234567` |
| Contacts.NorwegianDashedExample | src/config.rs:707 | `412-34-567` gives `+4741234567` |
| Contacts.NorwegianLeadingOneExample | src/config.rs:721 | `11234567` is rejected |
| Contacts.NorwegianForeignExample | src/config.rs:725 | `+4641234567` is rejected |
| CourseScraper.ParseCourseText | src/course_scraper.rs:251-261 | both parts come out trimmed, and together they are no longer than the text |
| CourseScraper.CodeHasNoSeparator | src/course_scraper.rs:253-255 | the code never contains `" - "` |
| CourseScraper.CourseTextRoundTrip | src/course_scraper.rs:251-261 | `code - name` gives back the code and name, for a code without spaces and trimmed parts |
| CourseScraper.CourseTextWithoutSeparator | src/course_scraper.rs:258-260 | text without the separator gives the trimmed text as code and an empty name |
| CourseScraper.CourseTextExample | src/course_scraper.rs:274-276 | `IN1000 - Introduksjon til programmering` splits into code and name |
| CourseScraper.BareCodeExample | src/course_scraper.rs:278-280 | `IN1000` gives the code and an empty name |
| CourseScraper.PointsCommaAsPoint | src/course_scraper.rs:263-266 | a comma and a point read the same |
| CourseScraper.ParsePoints | src/course_scraper.rs:263-266 | only non-blank text parses, and the value is non-negative unless the trimmed text starts with '-' |
| CourseScraper.PointsOfPaddedNumber | src/course_scraper.rs:263-266 | a number with whitespace around it reads as that number |
| CourseScraper.PointsExamples | src/course_scraper.rs:285-288 | `10`, `2.5` and `  10  ` read as they stand |
| CourseScraper.PointsCommaExample | src/course_scraper.rs:287 | `2,5` reads as 2.5 |
| CourseScraper.PointsOfTrimmed | src/course_scraper.rs:263-266 | text that needs no trimming is read as the number its form with commas turned into points denotes |
| CourseScraper.PointsInvalidExample | src/course_scraper.rs:289 | `invalid` is not points |
| CourseScraper.FirstCellFields | src/course_scraper.rs:179-192 | the url comes from the link's `href`, empty without a link or `href`; code and name are parsed from the link's text when the cell has a link, and from the cell's own text otherwise |
| CourseScraper.LinkTextDecides | src/course_scraper.rs:181-187 | when the cell has a link, changing the cell's own text changes neither the url, the code nor the name |
| CourseScraper.ReadRow | src/course_scraper.rs:171-233 | a row is skipped exactly when it has fewer than two cells; a parsed row gives a course with a non-empty code, the table's faculty and the parsed points |
| CourseScraper.RowCoursesMeaning | src/course_scraper.rs:171-233 | a row gives a course exactly when it has two cells, a non-empty code and readable points, and then the course is built from those cells |
| CourseScraper.TableStep | src/course_scraper.rs:170-234 | one more row adds its course, if any, and counts as short or not |
| CourseScraper.ParseTable | src/course_scraper.rs:160-248 | the loop collects the table's courses in row order; skipped rows, parse errors and courses add up to the row count |
| CourseScraper.TableCourses | src/course_scraper.rs:160-248 | the table read row by row, the reference that `ParseTable` is proved equal to; never more courses than rows |
| CourseScraper.TableCoursesAppend | src/course_scraper.rs:170-234 | rows are read independently and in order |
| CourseScraper.TableCoursesShape | src/course_scraper.rs:204-224 | every course has a code, carries the table's faculty and comes from a row read as that course |
| CourseScraper.TableCoursesCount | src/course_scraper.rs:160-248 | the faculty only labels courses and never changes how many there are |
| CourseScraper.CollectFaculties | src/course_scraper.rs:98-117 | the heading loop collects the faculty names in document order |
| CourseScraper.FacultiesMeaning | src/course_scraper.rs:98-117 | the faculties are exactly the trimmed, non-empty texts of headings whose id is not a navigation id |
| CourseScraper.Faculties | src/course_scraper.rs:98-117 | every faculty name collected is non-empty and trimmed |
| CourseScraper.FacultiesAppend | src/course_scraper.rs:98-117 | headings are read in document order |
| CourseScraper.FacultyAt | src/course_scraper.rs:130-134 | a table's faculty is a heading's faculty or "Unknown Faculty" |
| CourseScraper.ParseCourses | src/course_scraper.rs:75-157 | without a content area there are no courses; otherwise the headings, then the tables |
| CourseScraper.PairTables | src/course_scraper.rs:126-148 | the table loop: only a table that gives courses moves on to the next faculty |
| CourseScraper.PairedStep | src/course_scraper.rs:129-148 | one table step keeps the loop's invariant |
| CourseScraper.TableCoursesLabelled | src/course_scraper.rs:209-215 | the table reader labels its courses with the faculty given |
| CourseScraper.TableCoursesFacultyBlind | src/course_scraper.rs:160-248 | whether a table gives courses does not depend on its faculty |
| CourseScraper.PairedSnoc | src/course_scraper.rs:129-148 | one more table adds its own courses at the end, read with the faculty whose index is the number of earlier tables that gave courses |
| CourseScraper.PairedFaculties | src/course_scraper.rs:129-148 | every course carries a faculty from the headings or the unknown one |
| CourseScraper.EnoughFaculties | src/course_scraper.rs:129-148 | with a faculty for every productive table, every course carries a heading's faculty |
| CourseScraper.PageFaculties | src/course_scraper.rs:75-157 | on a page, every course's faculty is a heading's or the unknown one, and a heading's whenever there are enough headings |
| Models.CourseChange.ChangeType | src/models.rs:37-42 | the label is "added" exactly for `Added` and "removed" exactly for `Removed` |
| Models.ScrapeDiff.TotalChanges | src/models.rs:56-62 | the total is zero exactly when the diff is empty, and it counts each side |
| Diff.FilterChanges | src/diff.rs:13-65 | a course is kept on each side exactly when it was there and its points match; neither side grows |
| Diff.FilterChangesKeepsAll | src/diff.rs:13-65 | a filter that accepts every course passes both lists on unchanged and in order |
| Diff.NoFilterKeepsEverything | src/diff.rs:125-139 | `None`, or a range without bounds, lets every change through |
| Diff.FilterChangesIdempotent | src/diff.rs:13-65 | filtering a filtered diff changes nothing |
| Diff.FilterChangesInOrder | src/diff.rs:13-65 | filtering keeps order: it distributes over concatenation on both sides |
| Diff.FilterChangesEmpty | src/diff.rs:13-65 | the diff is empty exactly when no added or removed course matches |
| Diff.ExactFilterExample | src/diff.rs:83-98 | an exact 2.5 filter keeps just the 2.5-point course on each side |
| Diff.UpperRangeExample | src/diff.rs:101-122 | an upper bound of 5 keeps the 2.5- and 5-point courses and drops the 10-point one |
| Diff.SameNameExample | src/diff.rs:180-212 | two courses with the same name and different codes both come through, two changes in all |
| Db.ChangeRow | src/db.rs:387-403 | the row records the change's course code, label and course, with the given id and time |
| Db.AppendRows | src/db.rs:387-403 | logging a list of changes appends one row per course, in order, with consecutive ids |
| Db.ChangeLogSnoc | src/db.rs:387-403 | logging one more change extends the appended rows by that course |
| Db.LatestKeys | src/db.rs:303-351 | upserting a list stores exactly its codes, each under a course with that code |
| Db.LatestLastWins | src/db.rs:303-351 | a code given more than once keeps its last course |
| Db.ArrivalsCodes | src/db.rs:611-628 | the codes reported as added are exactly the incoming codes the store did not hold |
| Db.ArrivalsDistinct | src/db.rs:611-628 | no code is reported as added twice |
| Db.ArrivalsFirst | src/db.rs:611-628 | an added course is the first incoming course with its code |
| Db.ArrivalsEmpty | src/db.rs:611-628 | nothing is added exactly when every incoming code was already stored |
| Db.NewestFirst | src/db.rs:512-548 | `ORDER BY id DESC LIMIT n`: the newest n entries, newest first |
| Db.FindRun | src/db.rs:550-584 | `WHERE id = ?` finds an entry with that id exactly when one exists |
| Db.CodeLeTotal | src/db.rs:489-490 | the `ORDER BY code` order is total |
| Db.CodeLeAntisymmetric | src/db.rs:489-490 | the `ORDER BY code` order is antisymmetric |
| Db.CodeLeTransitive | src/db.rs:489-490 | the `ORDER BY code` order is transitive |
| Db.LeastCodeExists | src/db.rs:489-490 | every non-empty set of codes has a least code |
| Db.UpsertPassCourses | src/db.rs:611-628 | the upsert loop leaves the old store overridden by the incoming courses |
| Db.UpsertPassFirstSeen | src/db.rs:611-628 | the upsert loop keeps old first-seen times and stamps new codes with `now` |
| Db.UpsertPassLastSeen | src/db.rs:611-628 | the upsert loop stamps every incoming code's last-seen time with `now` |
| Db.UpsertPassReported | src/db.rs:611-628 | the upsert loop reports the new codes' first courses, or nothing on a first run |
| Db.UpsertPassLog | src/db.rs:611-628 | the upsert loop logs one "added" row per reported course |
| Db.UpsertOnceState | src/db.rs:611-628 | one upsert round changes the store and log as `upsert_course` and `log_change` do |
| Db.RemoveOnceState | src/db.rs:638-652 | one removal round changes the store and log as `remove_course` and `log_change` do |
| Db.RemovePassTable | src/db.rs:631-652 | the removal loop deletes exactly the codes it is given |
| Db.RemovePassReported | src/db.rs:631-652 | the removal loop reports each stored course it deletes, once, or nothing on a first run |
| Db.RemovePassLog | src/db.rs:631-652 | the removal loop logs one "removed" row per reported course |
| Db.AfterRemovals | src/db.rs:631-652 | removing the missing codes leaves exactly the incoming codes |
| Db.SyncOutcome | src/db.rs:587-679 | the two loops together have the effect `sync_courses` promises |
| Db.SyncedStore | src/db.rs:587-679 | after a sync the stored codes are exactly the incoming ones, and a repeated code keeps its last course |
| Db.SyncedDisjoint | src/db.rs:587-679 | no code is reported both as added and as removed |
| Db.SyncedChanges | src/db.rs:690-693 | past the first run, `has_changes` holds exactly when the incoming codes differ from the stored ones |
| Db.SyncedQuietFirstRun | src/db.rs:613-650 | the first run reports nothing and leaves the change log as it was |
| Db.SyncedAgainQuiet | src/db.rs:587-679 | syncing the same courses again reports nothing, logs nothing and leaves the store as it was |
| Db.SortedColumn | src/db.rs:485-510 | a display table whose code column is the sorted keys holds each key once, in order |
| Db.SortedCodes | src/db.rs:485-493 | `ORDER BY code`: each code once, in strictly ascending order |
| Db.UpsertCount | src/db.rs:303-351 | an upsert adds a row exactly when the code is new |
| Db.RemoveCount | src/db.rs:353-385 | removing a stored code drops exactly one row |
| Db.Database.constructor | src/db.rs:97-116 | a new database holds no courses and no log entries |
| Db.Database.CourseCount | src/db.rs:289-297 | the count is zero exactly when the store is empty |
| Db.Database.IsFirstRun | src/db.rs:299-301 | a run is the first exactly when the store holds no course |
| Db.Database.AllCourses | src/db.rs:268-287 | every stored course sits under its own code, one per row |
| Db.Database.UpsertCourse | src/db.rs:303-351 | stores the course under its code; a new code gets both times set to `now` and an existing one keeps its first-seen time; the result says whether the code was new |
| Db.Database.RemoveCourse | src/db.rs:353-385 | deletes a stored code and returns its course; an absent code returns nothing and changes nothing |
| Db.Database.LogChange | src/db.rs:387-403 | appends one change row under the next id |
| Db.Database.SyncCourses | src/db.rs:587-679 | leaves the store equal to the incoming courses, the last course winning for each code; on a first run reports nothing; otherwise reports the new codes as added and the vanished stored courses as removed, logging each |
| Db.Database.UpsertAll | src/db.rs:611-628 | the upsert loop, against its specification function |
| Db.Database.RemoveAll | src/db.rs:631-652 | the removal loop, against its specification function, over some enumeration of the codes to remove |
| Db.Database.RemoveRound | src/db.rs:638-652 | one round of the removal loop |
| Db.Database.LogRun | src/db.rs:423-482 | appends the run under a fresh id, larger than every earlier id, and that id finds it |
| Db.Database.RunLogs | src/db.rs:512-548 | exactly the newest min(`limit`, entries) entries, newest first; a limit too large for `i64` becomes negative in SQL and means no limit |
| Db.Database.RunLogById | src/db.rs:550-584 | the entry with that id, or nothing when there is none |
| Db.Database.CoursesForDisplay | src/db.rs:485-510 | every stored course once, with its times, in ascending code order |
| Db.Database.DisplayRows | src/db.rs:495-506 | one display row per code, in the order of the codes |
| Web.HtmlEscape | src/web.rs:538-544 | text without `& < > " '` is returned unchanged |
| Web.HtmlEscapeEach | src/web.rs:538-544 | the chain of replacements equals escaping each character on its own |
| Web.HtmlEscapeConcat | src/web.rs:538-544 | escaping a concatenation gives the concatenation of the escapes |
| Web.HtmlEscapeChar | src/web.rs:538-544 | a single character becomes its entity, with the ampersand replaced first |
| Web.EscapeChar | src/web.rs:538-544 | a character is kept as it is exactly when it is not special, and its entity contains no special character but the ampersand |
| Web.HtmlEscapeSafe | src/web.rs:538-544 | the output contains none of `< > " '` |
| Web.EscapeRoundTrip | src/web.rs:538-544 | unescaping the output gives back the input, so no two texts escape alike |
| Web.FormatTimestamp | src/web.rs:547-554 | the result has at most 19 characters and no 'T'; each one is the input's character, with 'T' replaced by a space |
| Web.FormatTimestampIdempotent | src/web.rs:547-554 | formatting a formatted timestamp changes nothing |
| Web.FormatTimestampExample | src/web.rs:547-554 | `2024-01-15T10:30:00+00:00` becomes `2024-01-15 10:30:00` |
| Strings.Trim | src/config.rs:318 | `str::trim`: the result starts and ends with non-whitespace |
| Strings.TrimIdempotent | src/config.rs:318 | trimming twice is trimming once |
| Strings.TrimIsSlice | src/config.rs:318 | the trimmed text is a slice of the original |
| Strings.FindChar | src/config.rs:420-421 | `str::find` with one character: the first occurrence, or none when the character is absent |
| Strings.Find | src/course_scraper.rs:253 | `str::find` with a string pattern: the first position where the pattern occurs, or none when it occurs nowhere |
| Strings.SplitJoin | src/config.rs:130 | `str::split` loses nothing: joining the pieces gives the text back |
| Strings.JoinSplit | src/config.rs:130 | splitting pieces joined by the separator, none containing it, gives the pieces back |
| Strings.SplitPiecesLackSeparator | src/config.rs:130 | no piece contains the separator |
| Strings.ReplaceCharConcat | src/course_scraper.rs:264 | `str::replace` of one character works piece by piece |
| Numbers.ParseNumber | src/course_scraper.rs:265 | `str::parse::<f32>` on decimal forms: only non-empty text parses, and text without a leading minus gives a non-negative value |
| Numbers.WholeNumeral | src/course_scraper.rs:265 | a string of digits parses to its decimal value |
| Numbers.DecimalNumeral | src/course_scraper.rs:265 | digits, a point and digits parse to the whole part plus the scaled fraction |
| Lists.FilterMembers | src/diff.rs:14-30 | `filter` keeps exactly the elements that pass |
| Lists.FilterConcat | src/diff.rs:14-30 | `filter` distributes over concatenation, so it keeps order |
| Lists.FirstFailingMeaning | src/config.rs:225-234 | the first failing element found is one that fails, and all before it pass; nothing is found exactly when all pass |
| Lists.ConcatMapElements | src/config.rs:152-155 | `filter_map` yields exactly what the elements contribute |

## Left out

- Study points are `f32` in the source and exact rationals here. The f32
  rounding of parsed values is not modelled, so neither is the tolerance
  `(points - exact).abs() < 0.01` evaluated in f32.
- `str::parse::<f32>` is modelled on plain decimal numerals with an optional
  sign. Exponents, `inf` and `nan` are not modelled.
- `PointsFilter::description` formats numbers with a rendering function the
  caller passes in. The decimal rendering of `f32` is not modelled.
- Settings.SmsProblemIsReal: the "no valid Norwegian numbers" check is
  modelled as written, but it can never fire. SMS is checked only when
  enabled, and enabled already means some number was kept.
- Settings.Config.Validate: the sender is read with the corrected
  extraction `Contacts.ExtractEmail`. The source's `validate` reads it with
  `extract_email_from_address` as written, which panics when the sender's
  first '>' comes before its first '<' (see Findings).
  `Settings.Config.ValidateAsWritten` models the source as written, and
  `Settings.ValidateAsWrittenMeaning` states exactly where the two differ.
- Settings.EmailProblemMeaning: holds for the email check with the
  corrected extraction. For the source as written, a sender whose first '>'
  comes before its first '<' panics instead of passing or failing.
- Settings.AcceptableValidates: a configuration that meets every requirement
  passes the corrected `validate`. The source's `validate` panics on such a
  configuration when its sender makes the written extraction panic;
  `Settings.ValidateAsWrittenAccepts` states the source's condition.
- Settings.ValidateMeaning: the if-and-only-if holds for the corrected
  `validate`. For the source as written it is
  `Settings.ValidateAsWrittenAccepts`, which adds that the sender must not
  make the extraction panic.
- The command line parser, the database path, verbosity, the web port and
  the environment variable lookup are not modelled. A `Config` holds the
  values already parsed.
- `CourseScraper.ParseTable`: the three counters (`rows_processed`,
  `rows_skipped`, `parse_errors`) feed only the logging. The model returns
  them and proves how they add up.
- HTML parsing is not modelled. The page is given as an abstract document:
  the first content area's `h2` headings and tables, each row's `td` cells,
  and each cell's text and first link. The content-area selector list and
  the fetching over HTTP (`fetch_courses`) are left out.
- SQL, the connection, the migrations, Turso and the JSON columns of
  `run_log` are not modelled. Each table is a Dafny value, and each query is
  its meaning on those values.
- The clock is not modelled. Each operation takes `now` as a parameter.
  `log_change` reads the clock again in the source, and the model passes it
  the same `now`, so the times of a sync's log rows are the sync's time.
- Db.Database.RemoveAll: the source removes the codes in the iteration order
  of a `HashSet`, which is unspecified. The model takes the codes in an order
  it leaves open and returns that order as a ghost value. The contract holds
  for every order.
- Ids of `change_log` and `run_log` are modelled as position + 1. This is
  what AUTOINCREMENT gives on tables that are only appended to.
- Db.Database.LogRun: the source stores the five counts (`usize`) and
  `duration_ms` (`u64`) with `as i64`, which wraps values of 2^63 or more
  to other (negative) numbers. The model keeps them as unbounded naturals,
  stored unchanged.
- Db.Database.RunLogs: `usize` is 64 bits. The `limit as i64` conversion is
  modelled by its sign: a limit of 2^63 or more becomes negative, which
  SQLite reads as no limit.
- Db.Database.SyncCourses: the store's contract goes through the ghost
  predicate `Db.Synced`. The lemmas `Db.SyncedStore`, `Db.SyncedDisjoint`,
  `Db.SyncedChanges`, `Db.SyncedQuietFirstRun` and `Db.SyncedAgainQuiet`
  state its consequences.
- Logging and tracing calls, the e-mail and SMS notifiers, the main loop,
  the web server, its routes, authentication and page templates are not
  modelled. Only `html_escape` and `format_timestamp` are taken from
  src/web.rs.
- `Web.Unescape` is not part of the source. It is the inverse used to prove
  that escaping loses nothing.
- Errors that the database driver can raise are not modelled. Each
  operation here succeeds.

## Findings

| source | as written | input that shows it | evidently intended | confidence | as-written member | corrected member |
|---|---|---|---|---|---|---|
| src/config.rs:418-426 | the closing '>' is searched for from the start of the address, so when a '>' comes before the first '<' the slice `address[start + 1..end]` has its start after its end, and the slice panics | the sender `>a<b@c.d` | look for the '>' after the '<', and fall back to the whole trimmed address when there is none | not executed | Contacts.AsWrittenPanicExample | Contacts.ExtractEmail |
