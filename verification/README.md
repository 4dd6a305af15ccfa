# cacviun front-end, modelled in Dafny

cacviun is a React front-end where members of a university report incidents of violence. This project
models the parts of its views that hold logic:

- the personal history view: its filter chain, its 15-row pager, the iterator that drains a page, and
  the identifier guard in front of delete and edit requests;
- the report edit dialog;
- the statistics dashboard:
  - the counting dictionaries built with `reduce`;
  - the top five categories and zones;
  - the monthly and yearly trends;
  - the age-range rows;
  - the peak month and the summary fallbacks;
- the form validators, each a chain of guards that stops at the first failing check:
  - sign-in and its back-end-free twin;
  - account creation and its back-end-free twin;
  - password reset;
  - the report form;
  - the define-administrator form;
- the global session store and the navigation header;
- the local personal-statistics list, edited and deleted by identifier.

Each view whose handlers update component state is a `class` whose fields are that state. Each handler
is a `method` with a `modifies` clause. Its `ensures` ties the new state and the request it would send
to a pure function of the old state. The properties the views rely on are lemmas about those functions.

The modules follow the program's structure:

| modules | what they hold |
|---|---|
| `Options`, `Seqs`, `Text` | JavaScript's `null`/`NaN`, sub-lists, and the string built-ins (`trim`, `toLowerCase`, `includes(" ")`, the institutional pattern, code-point order) |
| `Validation` | the guard chain shared by the forms |
| `Reports` | the report record and `extractId` |
| `Histogram` | counting dictionaries and the stable sorts |
| `HistoryFilter`, `Pager`, `PersonalHistory` | the personal history view |
| `EditReport` | the edit dialog |
| `Statistics` | the dashboard |
| `Login`, `LoginPrueba`, `CreateAccount`, `CreateAccountPrueba`, `ForgotPassword`, `ReportForm`, `DefineAdmin` | the forms |
| `SessionStore`, `Header` | the session store and the header |
| `PersonalStatistics` | the local personal-statistics view |

The network, the clock and date parsing are parameters:

- A server reply is an argument: `reply`, `sent`, `unknownEmail`.
- The current time is an integer in milliseconds.
- A date field is its raw text plus what `new Date` makes of it: a timestamp and its local month, or
  `None` for an Invalid Date.

## Model

| member | source | states |
|---|---|---|
| Text.Utf16Length | src/components/EditReport.jsx:49 | `.length` counts UTF-16 code units: between one and two per character, exactly one each iff no character lies beyond U+FFFF, exactly two each iff every one does |
| Text.Trim | src/vistas/Login.jsx:19-20 | `trim()` removes only surrounding whitespace; the result is empty exactly when the field is all whitespace |
| Text.TrimIdempotent | src/vistas/Login.jsx:19-20 | trimming twice is trimming once |
| Text.ToLowerIdempotent | src/vistas/Login.jsx:19 | lower-casing twice is lower-casing once |
| Text.TrimLowerCommute | src/vistas/Login.jsx:19 | trimming then lower-casing equals lower-casing then trimming |
| Text.InstitutionalHasNoSpace | src/vistas/Login.jsx:38-39 | an address `^[^\s@]+@unal\.edu\.co$` accepts has no whitespace at all and is its own trim |
| Text.LowerKeepsInstitutional | src/vistas/Login.jsx:38-39 | lower-casing an accepted address keeps it accepted |
| Text.UpperDomainRefused | src/vistas/DefineAdmin.jsx:19-20 | the pattern is case-sensitive: `ana@UNAL.EDU.CO` is refused |
| Text.UpperDomainLowered | src/vistas/Login.jsx:19-39 | the same address is accepted once lower-cased |
| Text.PrecedesTotal | src/vistas/Statistics.jsx:199 | the key order used for the trends is total on distinct keys and never goes both ways |
| Text.PrecedesTransitive | src/vistas/Statistics.jsx:199 | the key order is transitive |
| Validation.FirstFailureSpec | src/vistas/Login.jsx:22-45 | a guard chain passes iff every guard holds; otherwise its failure is that of a failing guard with all earlier guards holding |
| Validation.FirstFailureAt | src/vistas/Login.jsx:22-45 | the chain ends on the toast of the first guard that fails |
| Validation.FirstFailureNone | src/vistas/Login.jsx:22-45 | when every guard holds, the handler runs past the chain |
| Validation.NormalizedEmail | src/vistas/Login.jsx:19 | `email.trim().toLowerCase()` is trimmed and lower case, and is empty iff the field was blank |
| Validation.LowerKeepsSpaces | src/vistas/Login.jsx:19-30 | lower-casing neither adds nor removes a plain space |
| Validation.LowerKeepsValidEmail | src/vistas/Login.jsx:19-45 | an e-mail that passes the blank, space and pattern checks still passes them once lower-cased |
| Reports.ExtractId | src/vistas/PersonalHistory.jsx:22-29 | `extractId` yields nothing iff `_id` is missing or empty and the legacy `id` is falsy; otherwise it takes the string `_id`, then `$oid`, then `toString()`, then `id` |
| Reports.ObjectIdIgnoresLegacy | src/vistas/PersonalHistory.jsx:25-27 | an object `_id` always resolves, so the legacy `id` is never consulted for it |
| Reports.ExtractIdSource | src/vistas/PersonalHistory.jsx:22-29 | a resolved identifier comes from the string `_id`, its `$oid`, its `toString()`, or the legacy `id` |
| HistoryFilter.ApplyFilters | src/vistas/PersonalHistory.jsx:84-139 | the filter chain, one reassignment per non-empty control, ends with exactly the reports the whole filter keeps |
| HistoryFilter.KeepMore | src/vistas/PersonalHistory.jsx:88-133 | filtering a filtered list by one more step is filtering by all those steps at once |
| HistoryFilter.SkipVacuous | src/vistas/PersonalHistory.jsx:88-116 | a step whose control is empty keeps everything, so skipping it changes nothing |
| HistoryFilter.KeepPassingMembers | src/vistas/PersonalHistory.jsx:88-133 | a report survives iff it passes every step; survivors keep their order |
| HistoryFilter.FilterSemantics | src/vistas/PersonalHistory.jsx:84-139 | the shown list is an in-order sub-list of exactly the reports that match every control, each kept as many times as it occurs. Category and zone match ignoring case; age lies within inclusive bounds, an undefined age failing them and a `null` age counting as 0; `date \|\| creationTime` is valid, at or after the start, and before the day after the end |
| HistoryFilter.NullAgeComparesAsZero | src/vistas/PersonalHistory.jsx:102-110 | a `null` age passes a minimum of at most 0 and a maximum of at least 0; an undefined age fails every bound that is set |
| HistoryFilter.EmptyCriteriaIsIdentity | src/vistas/PersonalHistory.jsx:41-48 | with every control empty the list is shown unchanged |
| HistoryFilter.UndatedExcluded | src/vistas/PersonalHistory.jsx:116-119 | once a date bound is set, a report with neither `date` nor `creationTime` is dropped |
| HistoryFilter.EndDateCoversWholeDay | src/vistas/PersonalHistory.jsx:127-131 | the end date admits the whole of its day and nothing of the next |
| Pager.TotalPages | src/vistas/PersonalHistory.jsx:264 | `Math.ceil(n / 15)`: the least page count whose pages hold `n` rows |
| Pager.PageSlice | src/vistas/PersonalHistory.jsx:248-252 | the slice of page `p` holds at most 15 rows: rows `15(p-1)` onwards, in order; it is non-empty for every page up to the count and empty after it |
| Pager.PageSliceShift | src/vistas/PersonalHistory.jsx:248-252 | page `p` of a list is page `p-1` of the list after its first 15 rows |
| Pager.PagesCover | src/vistas/PersonalHistory.jsx:248-264 | the pages cover the list exactly once and in order; there are `ceil(n/15)` of them, and page `p` is what the view slices for `currentPage == p` |
| Pager.IncidentIterator.constructor | src/vistas/PersonalHistory.jsx:235-236 | the iterator starts at index 0 of its collection |
| Pager.IncidentIterator.Next | src/vistas/PersonalHistory.jsx:239-244 | `next()` yields the element under the cursor and advances, or reports `done` at the end without moving |
| Pager.VisibleRows | src/vistas/PersonalHistory.jsx:252-261 | the loop that drains the iterator collects exactly the page slice, in order |
| PersonalHistory.DeleteRequestFor | src/vistas/PersonalHistory.jsx:156-167 | a delete request is sent iff the selection's identifier is usable, and it carries that identifier |
| PersonalHistory.EditRequestFor | src/vistas/PersonalHistory.jsx:192-209 | an edit request is sent iff the edited form's identifier is usable, and its body is only category and description |
| PersonalHistory.NoIdNoRequest | src/vistas/PersonalHistory.jsx:158-162 | a null selection, or a report with no identifier, never reaches the network |
| PersonalHistory.EditBodyOnlyCategoryAndDescription | src/vistas/PersonalHistory.jsx:200-203 | forms differing only in e-mail, age, date or zone send the same edit request |
| PersonalHistory.LegacyIdDeletableNotEditable | src/vistas/PersonalHistory.jsx:192-198 | a report known only by its legacy `id` can be deleted, but its edit is refused, because the dialog copies only `_id` |
| PersonalHistory.TwentyReportsTwoPages | src/vistas/PersonalHistory.jsx:248-266 | 20 reports make two pages, of 15 rows and then 5, and no third |
| PersonalHistory.HistoryView.constructor | src/vistas/PersonalHistory.jsx:35-48 | the view starts with empty lists, empty controls, page 1 and no dialog |
| PersonalHistory.HistoryView.Refilter | src/vistas/PersonalHistory.jsx:83-143 | the filter effect makes the shown list the filter of the fetched list and returns to page 1 |
| PersonalHistory.HistoryView.Reload | src/vistas/PersonalHistory.jsx:67-70 | a fetch replaces the full list, and the shown list follows it through the filter |
| PersonalHistory.HistoryView.ChangeFilters | src/vistas/PersonalHistory.jsx:51-54 | a control change refilters the unchanged fetched list and returns to page 1 |
| PersonalHistory.HistoryView.NextPage | src/vistas/PersonalHistory.jsx:263-267 | `nextPage` advances only while before the last page; the page stays in range |
| PersonalHistory.HistoryView.PrevPage | src/vistas/PersonalHistory.jsx:269-273 | `prevPage` goes back only while past page 1 |
| PersonalHistory.HistoryView.Rows | src/vistas/PersonalHistory.jsx:248-261 | the rendered rows are the current page slice, non-empty whenever the shown list is |
| PersonalHistory.HistoryView.DeleteClick | src/vistas/PersonalHistory.jsx:151-154 | the report is selected and the delete dialog opens |
| PersonalHistory.HistoryView.EditClick | src/vistas/PersonalHistory.jsx:187-190 | the report is selected and the edit dialog opens |
| PersonalHistory.HistoryView.ConfirmDelete | src/vistas/PersonalHistory.jsx:156-185 | an unusable identifier returns early with no request and the dialog left open; otherwise the request is sent and the dialog closes |
| PersonalHistory.HistoryView.SaveEditedReport | src/vistas/PersonalHistory.jsx:192-227 | the same guard for the edit: no request and the dialog open, or the request and the dialog closed |
| PersonalHistory.EmptyListStaysOnFirstPage | src/vistas/PersonalHistory.jsx:263-273 | with nothing to show, neither page button leaves page 1 |
| EditReport.InitialFormCopies | src/components/EditReport.jsx:8-16 | the form is a field-for-field copy of the seven listed fields and ignores the legacy `id` |
| EditReport.ValidationAccepts | src/components/EditReport.jsx:38-55 | `validate()` passes iff the age is present and positive, the category is one of the five types, and the trimmed description is at least 10 UTF-16 code units long, as `.length` counts |
| EditReport.ChangeIsolated | src/components/EditReport.jsx:31-33 | a change sets only its own field and leaves the verdicts on the other fields as they were |
| EditReport.BlankDescriptionRejected | src/components/EditReport.jsx:49-51 | ten spaces are not a description |
| EditReport.EmojiDescriptionAccepted | src/components/EditReport.jsx:49 | five emoji are ten code units, so the description is long enough |
| EditReport.EmojiDescriptionRejected | src/components/EditReport.jsx:49 | four emoji and a letter are nine code units, so the description is too short |
| EditReport.EditDialog.constructor | src/components/EditReport.jsx:8-18 | the dialog starts with the copied form and no errors |
| EditReport.EditDialog.HandleChange | src/components/EditReport.jsx:31-33 | `{ ...formData, [name]: value }` on the field changed |
| EditReport.EditDialog.Validate | src/components/EditReport.jsx:38-55 | the stored errors are the form's verdicts; the result is true iff there are none |
| EditReport.EditDialog.HandleSubmit | src/components/EditReport.jsx:60-63 | the form goes to `onSave` iff validation records no error |
| Histogram.BumpTotal | src/vistas/Statistics.jsx:145-149 | one accumulator step adds one to the total |
| Histogram.BumpCount | src/vistas/Statistics.jsx:147 | one step adds one under its own key and changes no other count |
| Histogram.BumpKeys | src/vistas/Statistics.jsx:147 | one step appends its key exactly when the key is new |
| Histogram.TalliedSpec | src/vistas/Statistics.jsx:145-149 | the dictionary's counts sum to the number of reports; each key's count is its number of occurrences; entries are in first-seen order; no count is zero |
| Histogram.TalliedKeys | src/vistas/Statistics.jsx:145-151 | every occurring key has exactly one entry and no other key has one |
| Histogram.Find | src/vistas/Statistics.jsx:147 | the look-up finds the first entry with the key, or reports that none has it |
| Histogram.Tally | src/vistas/Statistics.jsx:145-149 | the `reduce` loop builds exactly the counting dictionary |
| Histogram.SortByCountSpec | src/vistas/Statistics.jsx:152 | `.sort((a, b) => b[1] - a[1])` orders by non-increasing count, permutes, and keeps entries of equal count in their order |
| Histogram.SortByCountHead | src/vistas/Statistics.jsx:152 | the sorted list starts with the first entry of largest count |
| Histogram.TalliedFirstMax | src/vistas/Statistics.jsx:145-152 | that entry's key occurs, and no key occurs more often |
| Histogram.TopSpec | src/vistas/Statistics.jsx:151-153 | the first `n` after the sort: at most `n` entries of the dictionary, non-increasing, none smaller than one left out, ties in dictionary order |
| Histogram.SortByKeySpec | src/vistas/Statistics.jsx:199 | the sort by key is strictly ascending on distinct keys, a permutation, and keeps the total |
| Statistics.CountsStep | src/vistas/Statistics.jsx:145-149 | each report adds one to its own key only; a missing category or zone counts as "Not specified" |
| Statistics.Top5Spec | src/vistas/Statistics.jsx:145-176 | the top five categories (zones) are at most five entries, non-empty when there are reports, and non-increasing. Each is a dictionary entry counting its key's occurrences; none is smaller than an entry left out; ties stay in first-seen order |
| Statistics.KeyNotEmpty | src/vistas/Statistics.jsx:146 | a category or zone key is never empty |
| Statistics.MostCommonSpec | src/vistas/Statistics.jsx:276-277 | the summary is "N/A" when there are no reports; otherwise it is the first-seen key with the largest count (which may itself be the text "N/A"), and no key occurs more often |
| Statistics.LastYearSpec | src/vistas/Statistics.jsx:182-190 | the trailing-year list is the in-order sub-list of reports whose valid date lies in `[oneYearAgo, today]` |
| Statistics.MonthLabel | src/vistas/Statistics.jsx:202-205 | a label exists iff the key is `YYYY-MM` |
| Statistics.MonthLabelExamples | src/vistas/Statistics.jsx:202-205 | `2024-05` reads "May 24" and `1999-12` "Dec 99"; month 13 reads "undefined 23" |
| Statistics.MonthlyTrendSpec | src/vistas/Statistics.jsx:192-209 | the monthly points are keyed by the date's first 7 characters, strictly ascending and labelled from the key. Each counts the in-window reports with its key; every in-window report has a point; the counts sum to the in-window total |
| Statistics.YearlyTrendSpec | src/vistas/Statistics.jsx:214-225 | the yearly points are keyed by the date's first 4 characters and strictly ascending. Each counts its reports; every report has a point; the counts sum to the number of reports |
| Statistics.GroupAgeRanges | src/vistas/Statistics.jsx:230-236 | every age falls in exactly one listed range, with inclusive upper bounds; an undefined age fails every comparison and is "Over 30", while a `null` age compares as 0 and is "Under 18" |
| Statistics.AgeDataSpec | src/vistas/Statistics.jsx:238-252 | the age rows follow the fixed range order and list only ranges with reports, each with its number of reports. Every report's range has a row; the rows sum to the number of reports |
| Statistics.PeakMonthSpec | src/vistas/Statistics.jsx:257-270 | there is no peak month iff there are no reports, and then the name is "N/A". Otherwise no month has more reports, and every earlier month has fewer |
| Statistics.PeakMonthTieExample | src/vistas/Statistics.jsx:264-270 | a March report followed by a January one makes January the peak month |
| Login.LoginCheckSpec | src/vistas/Login.jsx:18-45 | a blank field fails first. A passing e-mail is trimmed, lower case, free of whitespace and institutional; a passing password is non-empty and free of spaces |
| Login.LoweringAcceptsMore | src/vistas/Login.jsx:19-45 | whatever the chain accepts without lower-casing, it accepts with it |
| Login.LoweringDecides | src/vistas/Login.jsx:19-45 | an address institutional only once lower-cased is accepted with lower-casing and refused without |
| Login.LoginView.constructor | src/vistas/Login.jsx:9-10 | both fields start empty |
| Login.LoginView.ResetFields | src/vistas/Login.jsx:80-83 | `resetCampos` empties both fields |
| Login.LoginView.HandleLoginClick | src/vistas/Login.jsx:18-78 | the verdict is the chain on the normalised fields. A failure empties both fields and sends nothing. Otherwise the fields are kept and the credentials are sent; only an accepted reply sets the session, to what the server sent |
| LoginPrueba.AcceptsStrictlyLess | src/vistas/LoginPrueba.jsx:16-43 | without lower-casing this view refuses some address the sign-in view accepts |
| LoginPrueba.LoginPruebaView.constructor | src/vistas/LoginPrueba.jsx:8-9 | both fields start empty |
| LoginPrueba.LoginPruebaView.HandleLoginClick | src/vistas/LoginPrueba.jsx:16-49 | a failure of the un-lowered chain empties both fields; otherwise the fields are kept and the view moves on |
| CreateAccount.RegisterBlankFirst | src/vistas/CreateAccount.jsx:29-37 | a blank field fails first, whatever the others hold |
| CreateAccount.RegisterMismatchLast | src/vistas/CreateAccount.jsx:34-57 | a password mismatch is reported only once every other check has passed |
| CreateAccount.RegisterAccepted | src/vistas/CreateAccount.jsx:28-57 | an accepted form has an institutional e-mail without whitespace (lower case when lowered), a non-blank name, and two equal, non-empty, space-free passwords |
| CreateAccount.NameNotChecked | src/vistas/CreateAccount.jsx:29-34 | the name is only checked for blankness: any two non-blank names give the same verdict |
| CreateAccount.RegistrationFollowsCode | src/vistas/CreateAccount.jsx:81-88 | after an accepted form, the registration body has role "2", the e-mail the code went to, the trimmed name lower-cased, and the agreed password |
| CreateAccount.CreateAccountView.constructor | src/vistas/CreateAccount.jsx:9-13 | the fields start empty and the dialog closed |
| CreateAccount.CreateAccountView.HandleSubmitRegister | src/vistas/CreateAccount.jsx:28-79 | a local failure only raises its toast and keeps every field. Otherwise the code is requested with the trimmed name and the normalised e-mail; the dialog opens only on a successful send |
| CreateAccount.CreateAccountView.HandleVerifySuccess | src/vistas/CreateAccount.jsx:81-88 | the registration body is built from the fields as they stand |
| CreateAccountPrueba.AcceptsLessThanCreateAccount | src/vistas/CreateAccountPrueba.jsx:18-59 | everything this un-lowered chain accepts, the account-creation view accepts too |
| CreateAccountPrueba.CreateAccountPruebaView.constructor | src/vistas/CreateAccountPrueba.jsx:8-11 | the four fields start empty |
| CreateAccountPrueba.CreateAccountPruebaView.ResetFields | src/vistas/CreateAccountPrueba.jsx:69-74 | `resetCampos` empties the four fields |
| CreateAccountPrueba.CreateAccountPruebaView.HandleSubmitRegister | src/vistas/CreateAccountPrueba.jsx:18-67 | any failure, the mismatch included, empties every field; otherwise the fields are kept and the view moves on |
| ForgotPassword.ResetIsRegisterWithoutName | src/vistas/ForgotPassword.jsx:26-57 | the reset chain gives the registration chain's verdict whatever non-blank name is used |
| ForgotPassword.ForgotPasswordView.constructor | src/vistas/ForgotPassword.jsx:9-12 | the fields start empty and the dialog closed |
| ForgotPassword.ForgotPasswordView.ResetFields | src/vistas/ForgotPassword.jsx:17-21 | `resetCampos` empties the three fields and leaves the dialog flag alone |
| ForgotPassword.ForgotPasswordView.HandleSubmitRegister | src/vistas/ForgotPassword.jsx:26-89 | a local failure resets the fields unless the passwords only differ. An unknown e-mail resets them. Otherwise the dialog opens before the code is requested, and a failed send resets the fields |
| ForgotPassword.ForgotPasswordView.HandleVerifySuccess | src/vistas/ForgotPassword.jsx:91-96 | the reset body holds the normalised e-mail and the trimmed password, as they stand |
| ForgotPassword.FailedSendLeavesDialogOpen | src/vistas/ForgotPassword.jsx:68-96 | after a failed send the dialog is open and the fields are empty, so verifying sends an empty e-mail and password |
| ReportForm.NumberOfDecimal | src/vistas/Report.jsx:41 | `Number` reads a non-negative decimal numeral back as its value |
| ReportForm.ReportChainOrder | src/vistas/Report.jsx:26-63 | the chain's checks run in order: required fields, pattern, age, too early, in the future |
| ReportForm.ReportBlankFirst | src/vistas/Report.jsx:29-32 | a blank required field fails first |
| ReportForm.DescriptionOptional | src/vistas/Report.jsx:29 | the description never changes the verdict |
| ReportForm.ReportAccepted | src/vistas/Report.jsx:26-63 | an accepted form has an institutional e-mail exactly as typed and a positive age. Its date lies between 2000-01-01 and now, or is not a valid date |
| ReportForm.NonPositiveAgeRejected | src/vistas/Report.jsx:41-44 | an age read as zero, negative or `NaN` fails once the earlier checks pass |
| ReportForm.InvalidDatePasses | src/vistas/Report.jsx:47-59 | an invalid date passes both date checks, whatever the current time |
| ReportForm.EarlyDateRejected | src/vistas/Report.jsx:47-54 | a date before 2000-01-01 fails once the earlier checks pass |
| ReportForm.FutureDateRejected | src/vistas/Report.jsx:56-59 | a date after now fails once every earlier check passes |
| ReportForm.ReportView.constructor | src/vistas/Report.jsx:16-24 | the six fields start empty and the confirmation closed |
| ReportForm.ReportView.HandleSubmit | src/vistas/Report.jsx:26-63 | the verdict is the chain's; the confirmation opens only when it passes, and no field changes |
| ReportForm.ReportView.ConfirmSubmit | src/vistas/Report.jsx:66-81 | all six fields become empty and the confirmation closes |
| DefineAdmin.AdminBlankFirst | src/vistas/DefineAdmin.jsx:13-16 | a whitespace-only field fails as required |
| DefineAdmin.AdminAccepts | src/vistas/DefineAdmin.jsx:10-23 | the field is accepted iff it is an institutional address as typed |
| DefineAdmin.AdminUntrimmed | src/vistas/DefineAdmin.jsx:13-20 | surrounding whitespace is refused, since the pattern runs on the untrimmed field |
| DefineAdmin.UpperCaseRefused | src/vistas/DefineAdmin.jsx:19-23 | an upper-case domain is refused as non-institutional |
| DefineAdmin.DefineAdminView.constructor | src/vistas/DefineAdmin.jsx:8 | the field starts empty |
| DefineAdmin.DefineAdminView.HandleSubmit | src/vistas/DefineAdmin.jsx:10-31 | a failure leaves the field as typed; success clears it |
| SessionStore.Store.constructor | src/session/sessionStore.ts:15-16 | the store starts with a `null` session |
| SessionStore.Store.SetSession | src/session/sessionStore.ts:18 | the whole session becomes the argument |
| SessionStore.Store.ClearSession | src/session/sessionStore.ts:20 | the session becomes `null` |
| SessionStore.SetNullIsClear | src/session/sessionStore.ts:18-20 | `setSession(null)` and `clearSession()` leave the same state |
| SessionStore.StoresAnyRole | src/session/sessionStore.ts:3-18 | any session, whatever its role, is stored and read back unchanged |
| Header.VisibleLinksSpec | src/components/Header.jsx:33-83 | Dashboard is shown iff signed in, the reporting links iff not a validator, the admin links iff admin, and the answering link iff validator |
| Header.VisibleLinksDistinctPaths | src/components/Header.jsx:49-83 | no two shown links lead to the same path |
| Header.RolesDisjoint | src/components/Header.jsx:33-35 | admins and validators are signed in, and no role is both |
| Header.NavLinkClass | src/components/Header.jsx:29-31 | the active class is given exactly when the location is the link's path |
| Header.RenderSpec | src/components/Header.jsx:33-90 | a `null` session cannot be rendered. Otherwise the toggle and Sign Out are shown iff signed in, the buttons are the role's links in order, and at most one is active |
| Header.SignedOutView | src/components/Header.jsx:24-90 | after sign-out only the two reporting links are shown, with no toggle and no Sign Out |
| Header.HeaderState.constructor | src/components/Header.jsx:13 | the menu starts closed |
| Header.HeaderState.ToggleMenu | src/components/Header.jsx:15-17 | the menu flag flips |
| Header.HeaderState.CloseMenu | src/components/Header.jsx:19-21 | the menu closes |
| Header.HeaderState.HandleSignOut | src/components/Header.jsx:23-27 | the store receives a session of three empty strings, which is signed out, and the menu closes |
| PersonalStatistics.RemoveById | src/vistas/PersonalStatistics.jsx:35-36 | the filter keeps, in order and as often as they occur, exactly the incidents whose `id` differs |
| PersonalStatistics.ReplaceById | src/vistas/PersonalStatistics.jsx:48-51 | the map replaces exactly the incidents with the edit's `id` and keeps the length |
| PersonalStatistics.RemoveAbsent | src/vistas/PersonalStatistics.jsx:36 | removing an `id` nobody has changes nothing |
| PersonalStatistics.RemoveIdempotent | src/vistas/PersonalStatistics.jsx:36 | removing twice is removing once |
| PersonalStatistics.RemoveMissingId | src/vistas/PersonalStatistics.jsx:10-36 | deleting the seeded example, which has no `id`, deletes every incident without `id` |
| PersonalStatistics.RemoveAfterReplace | src/vistas/PersonalStatistics.jsx:36-50 | after an edit, deleting by its `id` removes the same incidents as before it |
| PersonalStatistics.ReplaceIdempotent | src/vistas/PersonalStatistics.jsx:50 | replacing twice is replacing once |
| PersonalStatistics.ReplaceAbsent | src/vistas/PersonalStatistics.jsx:50 | an edit whose `id` nobody has changes nothing |
| PersonalStatistics.PersonalStatisticsView.constructor | src/vistas/PersonalStatistics.jsx:10-26 | the list starts with the one seeded example, with no selection and both dialogs closed |
| PersonalStatistics.PersonalStatisticsView.HandleDeleteClick | src/vistas/PersonalStatistics.jsx:29-32 | the incident is selected and the delete dialog opens |
| PersonalStatistics.PersonalStatisticsView.HandleEditClick | src/vistas/PersonalStatistics.jsx:42-45 | the incident is selected and the edit dialog opens |
| PersonalStatistics.PersonalStatisticsView.ConfirmDelete | src/vistas/PersonalStatistics.jsx:35-39 | the list loses exactly the incidents with the selected `id`, and the dialog closes |
| PersonalStatistics.PersonalStatisticsView.SaveEditedReport | src/vistas/PersonalStatistics.jsx:48-55 | every incident with the edit's `id` becomes the edit, and the dialog closes |

## Left out

- Network requests, toasts, navigation, `setTimeout`, React's render scheduling and `useEffect` timing are not modelled. A server's answer is a parameter of the handler that reads it.
- The map views (Leaflet, the heat layer, the recent markers) and the charts are not modelled. Neither are the latitude and longitude filtering and the floating-point percentages of the top categories. They are drawing code or floating point.
- `context.jsx`, `ConfirmCode.jsx`, `componentes/Header.jsx` and the other views are not part of this model.
- JavaScript `Date` parsing and the clock are not modelled. A parsed date is given as a timestamp with its local month, or as invalid. "Now", one year ago and the filter bounds are integers in milliseconds. The end-date bound adds 24 hours (HistoryFilter.DayMs), whereas `setDate(getDate() + 1)` (src/vistas/PersonalHistory.jsx:128-129) adds one local calendar day, which is 23 or 25 hours across a daylight-saving change.
- Header.HeaderState.HandleSignOut: the sign-out writes an empty session through the store's `setSession`, not `clearSession` (src/components/Header.jsx:11 and 24). The code is followed here: the store's `setSession` is merely bound to a variable named `clearSession`, so the session becomes signed out but not `null`.
- ReportForm.NumberOf: `Number` is modelled only on blank input, an optional sign followed by decimal digits, and surrounding whitespace. Other numerals (decimals, exponents, hexadecimal) read as `NaN`.
- Statistics.MonthLabel: keys that are not `YYYY-MM` get no label (`None`). The source would print whatever `split` and `parseInt` give for them.
- Statistics.Top5Spec: category and zone keys are assumed to enumerate in insertion order. A key that looks like an integer (such as "2024") would enumerate first in JavaScript.
- Statistics.YearlyTrendSpec: a report whose `date` is absent makes `inc.date.slice(0, 4)` throw in the yearly `reduce` (src/vistas/Statistics.jsx:214-215), which runs over every report and stops the dashboard from rendering. Here an absent date is the empty text, so such a report is counted under the key "". The monthly trend is not affected: `new Date(undefined)` is an Invalid Date, so the window filter at src/vistas/Statistics.jsx:187-190 drops an undated report before its `slice` runs, as Statistics.MonthlyTrendSpec states.
- HistoryFilter.FilterSemantics: a report without `category` (or `zone`) makes `inc.category.toLowerCase()` (or `inc.zone.toLowerCase()`) throw a TypeError once that control is set (src/vistas/PersonalHistory.jsx:90 and 97), so `applyFilters` fails and no new list is shown. Here an absent text field is the empty text "", which fails the case-insensitive match, so the report is dropped instead.
- Statistics.MonthlyTrendSpec: `slice(0, 7)` and `slice(0, 4)` count UTF-16 code units, while the model's prefixes count characters. The two agree on date text, whose characters are ASCII; an astral character within the first seven would make them differ.
- Histogram.SortByKeySpec: `localeCompare` is modelled as code-point order. The two agree on the ASCII digit-and-dash date keys the trends sort.
- DefineAdmin.AdminUntrimmed: the handlers are modelled on arbitrary field text. The e-mail fields of the define-administrator and report forms are `<input type="email">` inside a validating `<form>` (src/vistas/DefineAdmin.jsx:43-53, src/vistas/Report.jsx:112-133); by the HTML standard the browser strips surrounding whitespace from such a value and blocks submission of a non-address before `handleSubmit` runs. So the refusal of surrounding whitespace, and a `NotInstitutional` verdict on text that is not an address at all, hold for the handler but are not reachable from a browser.
- A report's age is undefined, `null` or a whole number of years. An age stored as text or as a fraction is not modelled.
- Text.ToLower: only ASCII letters are lowered. Lower-casing other letters does not affect the institutional pattern's fixed, lower-case domain.
- PersonalStatistics.PersonalStatisticsView.ConfirmDelete: requires a selected incident. The dialog that calls it is opened only by `handleDeleteClick`, which selects one; with no selection the source would throw.
- ForgotPassword.ForgotPasswordView.HandleSubmitRegister: an error of the e-mail existence request itself, before the `try` block, is not modelled. Only its `exist === false` answer is.
- PersonalHistory.HistoryView.ConfirmDelete: the reload after a successful request is `Reload`, a separate step, and a failed reload keeps the old list.
