# Khummuang translation web app — a verified model of its core logic

This project models the logic of a web application that translates between
Thai and Khummuang (Northern Thai). It covers the server's dictionary word
translator, its request checks and table updates, and the admin client's
state handlers. Each source file is one Dafny module:

- `translator.dfy` (`Translator`): `server/ModelASR/Translator.py`. It
  covers the vocabulary loader and the `source,target` dictionary loader.
  The dictionary loader is a loop that inserts into the dictionary; any
  malformed line aborts it with `ValueError`. It also covers
  `translate_sentence`, which splits on whitespace, looks each word up by
  its lowercased form, keeps unknown words and joins with single spaces.
- `audio_utils.dfy` (`AudioUtils`): the retention table and expiration
  date, the hash-deduplicated save, re-rating, and the cleanup of expired
  recordings.
- `routes_service.dfy` (`RoutesService`): `allowed_file` and the decisions
  of `transcribe` and `translate`.
- `routes_user.dfy` (`RoutesUser`): the checks of `register` and
  `change_password`, the merge of `update_user_profile`, the JWT blocklist
  (`logout`, `check_if_token_revoked`) and `delete_account`.
- `routes_auth.dfy` (`RoutesAuth`): the password-reset token, issued by
  `forgot_password` and spent by `reset_password`.
- `models.dfy` (`Models`): the rows; the database as one class holding a
  map from primary key to row for the user, profile and audio tables, and
  the token blocklist as the list of its rows; `User.age`. `User.get_id`
  returns the key column `userid`, which is the model's `userId`.
- `date_format.dfy` (`DateFormat`): `strptime`/`strftime` with
  `'%Y-%m-%d'`, as the user routes use them on birth dates.
- `admin_analytics.dfy` (`AdminAnalytics`): the top-20 word frequency of
  `get_content_analysis` and the size guard of `get_user_segmentation`.
- `client_age.dfy` (`ClientAge`): the client's `calculateAge`. The same
  function is written out twice, in `useUserManagement.jsx:73-84` and in
  `Editprofile.jsx:103-112`. It is proved equal to the server's `User.age`.
- `user_management.dfy`, `audio_records_list.dfy`, `edit_profile.dfy`,
  `context_admin.dfy`, `guide_modal.dfy`: the admin client's state, as
  classes whose methods are the handlers, and its pure helpers.
- Shared modules: `Wrappers` (Option, Result); `Strings` (whitespace
  tables of Python and JavaScript and the space and tab that RFC 6265 has
  a browser strip from cookie values, lowercasing, `strip`/`trim`,
  `split`/`join`, Python's `str.split()`, file lines); `Seqs`
  (`Array.prototype.filter`); `RequestBody` (a Flask JSON body);
  `JsValues` (JavaScript values, `parseInt`, `slice`, object spread).

Clocks (`datetime.utcnow()`, `datetime.today()`, `new Date()`) are
parameters. So are generated values (`secrets.token_urlsafe`, the uuid of
a new user, a JWT's `jti`) and the SHA-256 digest of uploaded audio. Each
HTTP request a handler awaits is a parameter too: the result it resolved
to, or a failure. bcrypt is abstract: a stored password `Hashed(p)` checks
against exactly `p`. Files are given by their text.

In the translator the vocabulary is a list that keeps duplicates and
blank lines. The first malformed dictionary line (a blank one included)
raises `ValueError` and aborts the whole load. `Translator.py` has no
phrase table, sentence cache or unknown-word tracker, so none is modelled.

The `server/models.py` in this repository is older than its callers.
Its `User` keys rows by `userid` and has no `is_active` or reset-token
columns. Its `AudioRecord` has no hash, source, rating or expiration
columns. It has no `Profile` or `TokenBlacklist` table, no
`SourceEnum`/`RatingEnum` and no `set_expiration_date`. The model follows the columns the callers use. It
takes `set_expiration_date` to be `calculate_expiration_date` of the
record's source and rating.

## Model

| member | source | states |
|---|---|---|
| Translator.VocabularyEntries | server/ModelASR/Translator.py:8-11 | one vocabulary entry per file line, in file order, each stripped; a blank line gives `""` |
| Translator.ParseLineMeaning | server/ModelASR/Translator.py:16-18 | a line gives an entry exactly when its stripped form holds exactly one comma; the key is the text before that comma, lowercased, and the value the text after it; any other line raises `ValueError` for its comma count plus one fields |
| Translator.WellFormedIff | server/ModelASR/Translator.py:17 | a line is well formed iff its stripped form holds exactly one comma; a blank line never is |
| Translator.LoadLines | server/ModelASR/Translator.py:13-20 | the insertion loop yields the dictionary of the lines, or the error of the first malformed line |
| Translator.LoadDictionary | server/ModelASR/Translator.py:13-20 | loading a file is loading its lines as Python iterates them |
| Translator.DictionaryFailsIff | server/ModelASR/Translator.py:15-17 | the load fails iff some line is malformed, and then with the error of the first one; nothing is skipped |
| Translator.DictionaryEntries | server/ModelASR/Translator.py:17-18 | after a load the keys are exactly the lowercased first fields, and each key holds the value of its last line (later lines overwrite) |
| Translator.NewTranslator | server/ModelASR/Translator.py:4-6 | the constructor loads both files, and a dictionary error escapes it |
| Translator.Translator.TranslateWords | server/ModelASR/Translator.py:26 | one output word per input word, in the same order |
| Translator.OneOutputWordPerInputWord | server/ModelASR/Translator.py:23-29 | when no value is empty or holds whitespace, splitting the output gives exactly the translated input words |
| Translator.UnknownWordsPassThrough | server/ModelASR/Translator.py:23-29 | a sentence of unknown words comes back as `' '.join(sentence.split())` |
| Translator.OutputSingleSpaced | server/ModelASR/Translator.py:23-29 | output has single spaces between words and none at the ends; it is `""` iff the input is empty or all whitespace |
| Translator.BlankSentence | server/ModelASR/Translator.py:23-29 | blank input translates to `""` whatever the dictionary |
| Translator.EmptyDictionary | server/ModelASR/Translator.py:21-31 | with an empty dictionary the output is `' '.join(sentence.split())`, and translating twice equals translating once |
| Translator.VocabularyIrrelevant | server/ModelASR/Translator.py:21-31 | translators with the same dictionary translate alike, whatever their vocabularies |
| AudioUtils.RetentionDays | server/audio_utils.py:5-22 | a retention period exists iff the source is microphone or upload, and is at least 7 days |
| AudioUtils.CalculateExpirationDate | server/audio_utils.py:5-22 | `None` iff the source is neither; otherwise at least 7 days after `now` |
| AudioUtils.RetentionTable | server/audio_utils.py:9-22 | microphone 7/90/30 days and upload 30/180/60 days for unrated/liked/disliked |
| AudioUtils.RetentionOrdering | server/audio_utils.py:9-22 | upload retention strictly exceeds microphone retention for each rating; liked > disliked > unrated within a source |
| AudioUtils.NewRecord | server/audio_utils.py:36-47 | a new row is unrated, keeps the hash and owner, and expires as the table says for an unrated recording |
| AudioUtils.SaveAudioRecord | server/audio_utils.py:27-52 | a stored hash returns that row's id with `Existing` and inserts nothing; otherwise one new row under the next id with `New` |
| AudioUtils.NewRecordNotExpired | server/audio_utils.py:36-47 | a freshly saved recording is not expired at once, and is expired at the end of its retention |
| AudioUtils.UpdateAudioRating | server/audio_utils.py:57-70 | missing id gives `Record not found`, invalid rating gives `Invalid rating value`, both without change; otherwise rating and expiration are updated |
| AudioUtils.Unexpired | server/audio_utils.py:79-83 | keeps exactly the rows not expired at `now`, unchanged |
| AudioUtils.CleanupExpiredRecords | server/audio_utils.py:75-85 | deletes exactly the rows with expiration `<= now` and returns their number |
| AudioUtils.CleanupIdempotent | server/audio_utils.py:79-85 | after a cleanup nothing expired remains, and repeating it deletes nothing |
| Models.Age | server/models.py:29-35 | `None` exactly when there is no birth date |
| Models.AgeIsCompletedYears | server/models.py:33-34 | the age is the number of completed years: its anniversary is reached, the next one is not |
| Models.AgeUnique | server/models.py:33-34 | that characterisation determines the age |
| Models.AgeOnBirthday | server/models.py:34 | on a birthday the age is the year difference; on the day of birth it is 0 |
| Models.AgeMonotone | server/models.py:33-34 | for a fixed birth date the age never decreases as the day advances |
| DateFormat.ParseDate | server/routes_user.py:52 | `strptime` gives only calendar dates, or fails |
| DateFormat.ParseFormat | server/routes_user.py:207 | a date written with `strftime('%Y-%m-%d')` is read back by `strptime` as the same date |
| DateFormat.LooseForms | server/routes_user.py:52 | unpadded and space-padded months and days are accepted |
| DateFormat.RejectedForms | server/routes_user.py:52-54 | 29 February of a common year and trailing digits are rejected |
| RoutesService.AllowedFileIff | server/routes_service.py:25-26 | allowed iff there is a dot and the text after the last dot, lowercased, is webm, wav or mp3 |
| RoutesService.AllowedOf | server/routes_service.py:26 | `stem.ext` is allowed iff `ext` lowercased is an allowed extension, whatever dots the stem has |
| RoutesService.RejectedWithoutDot | server/routes_service.py:26 | a name without a dot is rejected |
| RoutesService.RejectedEndingInDot | server/routes_service.py:26 | a name ending in a dot is rejected |
| RoutesService.UpperCaseAccepted | server/routes_service.py:12 | `X.WAV` is accepted |
| RoutesService.InnerDotIgnored | server/routes_service.py:26 | `a.b.mp3` is accepted |
| RoutesService.OnlyLastExtensionCounts | server/routes_service.py:26 | `stem.mp3.txt` is rejected |
| RoutesService.TranscribeDecision | server/routes_service.py:28-48 | missing file part first, then empty filename, then disallowed or missing name; accepted iff a part with an allowed name |
| RoutesService.TranslateDecision | server/routes_service.py:50-65 | no truthy text gives `No text provided` before any language check; only the exact pairs (TH, KM) and (KM, TH) dispatch, with absent languages defaulting to TH and KM |
| RoutesService.TranslateDefaults | server/routes_service.py:53-58 | a body with only a text translates TH to KM; a body without text is refused whatever its languages |
| RoutesService.NullLanguageUnsupported | server/routes_service.py:54-65 | a present `null` language is not defaulted and gives an unsupported pair |
| RoutesService.ClientCodesUnsupported | client/src/ServiceAPI.jsx:55-56 | the lower-case codes the client sends are always refused as an unsupported pair |
| RoutesAuth.Issue | server/routes_auth.py:26-28 | issuing sets the token and an expiry ten minutes after `now`, nothing else |
| RoutesAuth.Redeem | server/routes_auth.py:60-62 | a reset sets the password and clears token and expiry, nothing else |
| RoutesAuth.IssuedTokenWindow | server/routes_auth.py:55-58 | an issued token is accepted up to and including its expiry instant and refused afterwards |
| RoutesAuth.ReissueInvalidates | server/routes_auth.py:27 | a second token overwrites the first, which no longer resets |
| RoutesAuth.TokenSingleUse | server/routes_auth.py:60-62 | after a reset the token is never accepted again |
| RoutesAuth.ForgotPassword | server/routes_auth.py:11-40 | no email gives 400 without change; an unknown email gives the generic reply without change; a known one has a fresh token issued |
| RoutesAuth.ResetPassword | server/routes_auth.py:46-66 | token and password are both required; with no unexpired holder of the token it is refused; a success resets exactly one unexpired holder; a refusal changes nothing; no password policy |
| RoutesUser.EmailSuffixIgnored | server/routes_user.py:42-43 | the email match is anchored at the start only: any text may follow a matching prefix |
| RoutesUser.EmailOfParts | server/routes_user.py:42 | `local@domain.tld` matches for non-empty parts without `@` |
| RoutesUser.EmailRejections | server/routes_user.py:42 | an address starting with `@`, or without a dot, is rejected |
| RoutesUser.PasswordExtension | server/routes_user.py:45 | lengthening an accepted password keeps it accepted |
| RoutesUser.LowercasePasswordRefused | server/routes_user.py:296 | a password without an ASCII capital is refused |
| RoutesUser.RegisterCheck | server/routes_user.py:39-54 | the checks in order: required fields, email, password rule, uniqueness, birth date format; success carries the parsed fields |
| RoutesUser.NewUser | server/routes_user.py:57-58 | the new row is active, has the given id, and checks against the registered password |
| RoutesUser.Register | server/routes_user.py:31-69 | a failed check changes nothing; otherwise the user and an empty profile are added under the new id |
| RoutesUser.RegisteredThenTaken | server/routes_user.py:48-58 | a registered user logs in with the password given, and registering the same body again is refused as taken |
| RoutesUser.ChangePasswordCheck | server/routes_user.py:290-306 | the checks in order: all three fields, new equals confirm, policy, user exists, current password |
| RoutesUser.FieldChecksIgnoreUser | server/routes_user.py:290-297 | a request refused by the field checks is refused alike for every user or none |
| RoutesUser.ChangePassword | server/routes_user.py:284-311 | a refused request changes nothing; otherwise only the user's password changes, to the new one |
| RoutesUser.ChangedPasswordChecks | server/routes_user.py:305-309 | after a change the new password checks and a different old one does not |
| RoutesUser.PatchColumn | server/routes_user.py:261-265 | an absent key keeps the column; a present key sets it, `null` included |
| RoutesUser.PatchProfile | server/routes_user.py:259-265 | profile columns absent from the body keep their values |
| RoutesUser.PatchProfileSets | server/routes_user.py:261-265 | profile columns present in the body take the body's value |
| RoutesUser.PatchProfileEmpty | server/routes_user.py:260-265 | a body naming no profile column keeps the profile |
| RoutesUser.UpdateDecision | server/routes_user.py:248-275 | succeeds iff the birth date is absent or parses, `profile` is not `null`, neither email nor gender is `null` and no other user has the email; 400 iff the birth date is a string that does not parse; the 500 of the handler iff the birth date is `null`, or it parses and `profile` is `null`; the 500 of the commit iff a NOT NULL column is `null` or the email is taken; on success email, gender and birth date change only when their keys are present and no other user column changes |
| RoutesUser.UpdateUserProfile | server/routes_user.py:225-280 | another user's profile gives 403, an unknown user 404, a failure changes nothing; otherwise the user and profile rows become the decision's |
| RoutesUser.Logout | server/routes_user.py:168-180 | logout appends the token's jti to the blocklist |
| RoutesUser.LogoutRevokes | server/routes_user.py:23-27 | after logout the jti is revoked, and any other jti is revoked exactly as before |
| RoutesUser.NothingRevokedInitially | server/routes_user.py:23-27 | with an empty blocklist no jti is revoked |
| RoutesUser.Detach | server/routes_user.py:338 | every audio row is kept; exactly the user's rows lose their owner |
| RoutesUser.DetachKeepsRecords | server/routes_user.py:338 | no row points at the deleted user, other users' rows are unchanged, and no column but `user_id` changes |
| RoutesUser.DeleteAccount | server/routes_user.py:318-349 | 404, then 400 without password, then 401 on a wrong one, each without change; otherwise audio detached, profile and user deleted |
| AdminAnalytics.Transcriptions | server/admin_analytics.py:238 | keeps only non-empty transcriptions; empty exactly when none is truthy |
| AdminAnalytics.TranscriptionsExactly | server/admin_analytics.py:238 | the list is the texts of the truthy rows, one per row, in row order |
| AdminAnalytics.WordsDoNotMerge | server/admin_analytics.py:244 | joining with a space then splitting equals splitting each transcription: no word spans two |
| AdminAnalytics.TallyCounts | server/admin_analytics.py:245 | each counter entry holds the true count of its word, at least 1 |
| AdminAnalytics.TallySum | server/admin_analytics.py:245 | the counts add up to the number of words |
| AdminAnalytics.MostCommon | server/admin_analytics.py:245 | `n` entries, or one per counter entry when there are fewer |
| AdminAnalytics.TallySize | server/admin_analytics.py:245 | the counter has one entry per distinct word |
| AdminAnalytics.MostCommonSize | server/admin_analytics.py:245 | `most_common(n)` has `min(n, distinct words)` entries |
| AdminAnalytics.MostCommonAll | server/admin_analytics.py:245 | when fewer than `n` entries come back, every word of the text is among them |
| AdminAnalytics.MostCommonOrder | server/admin_analytics.py:245 | counts non-increasing, ties in first-occurrence order |
| AdminAnalytics.MostCommonIsTop | server/admin_analytics.py:245 | no word left out occurs more often than a word kept, and a kept word with the same count as one left out appears earlier in the text (the stable tie-break of `most_common`) |
| AdminAnalytics.NoTranscriptions | server/admin_analytics.py:238-241 | no truthy transcription gives an empty frequency list |
| AdminAnalytics.AbsentRowsIgnored | server/admin_analytics.py:238 | a `None` or empty transcription does not change the result |
| AdminAnalytics.WordFrequencyProperties | server/admin_analytics.py:238-249 | 20 distinct entries, or one per distinct word when there are fewer (then every word appears); true counts ≥ 1, ranked by count then first occurrence, none left out more frequent, and of words tied at the cut the first seen kept; counts summing to at most the word total |
| AdminAnalytics.CaseInsensitive | server/admin_analytics.py:244 | lowercasing every transcription first changes nothing |
| AdminAnalytics.EntriesLowercase | server/admin_analytics.py:244-248 | every reported word is in lower case |
| AdminAnalytics.SegmentationPlan | server/admin_analytics.py:206-207 | fewer than 3 users give `[]` |
| AdminAnalytics.ClusterCount | server/admin_analytics.py:206-212 | past the guard, KMeans always gets 3 clusters |
| ClientAge.CalculateAge | client/src/components/Admin/content/useUserManagement.jsx:73-84 | the client age equals the server's `User.age` for the same dates, and is the number of completed years |
| UserManagement.NextOrder | client/src/components/Admin/content/useUserManagement.jsx:52-58 | descending exactly when the current column is clicked while ascending |
| UserManagement.SortToggles | client/src/components/Admin/content/useUserManagement.jsx:52-58 | clicking the same column flips the order; a new column starts ascending |
| UserManagement.WithoutUserExactly | client/src/components/Admin/content/useUserManagement.jsx:63 | the filter removes exactly the rows with that id, keeps every other row as often as it occurs and in order, and changes nothing when there is none |
| UserManagement.UserManagement.constructor | client/src/components/Admin/content/useUserManagement.jsx:6-13 | the initial state values |
| UserManagement.UserManagement.FetchParams | client/src/components/Admin/content/useUserManagement.jsx:22-28 | the search parameters with one-based `page`, `perPage`, `sortBy` and `order` written over them |
| UserManagement.UserManagement.FetchUsers | client/src/components/Admin/content/useUserManagement.jsx:18-37 | success stores users and total; failure keeps them and records the message; loading always ends |
| UserManagement.UserManagement.HandleChangePage | client/src/components/Admin/content/useUserManagement.jsx:43-45 | the page becomes the new one |
| UserManagement.UserManagement.HandleChangeRowsPerPage | client/src/components/Admin/content/useUserManagement.jsx:47-50 | the page size becomes `parseInt` of the value and the page resets to 0 |
| UserManagement.UserManagement.HandleSort | client/src/components/Admin/content/useUserManagement.jsx:52-58 | `sortBy` becomes the column, the order as `NextOrder` says |
| UserManagement.UserManagement.HandleDeleteUser | client/src/components/Admin/content/useUserManagement.jsx:60-67 | the row is removed only after a successful call; otherwise the list is unchanged |
| JsValues.ParseIntDecimal | client/src/components/Admin/content/useUserManagement.jsx:48 | `parseInt` reads back a decimal number and ignores a non-digit suffix |
| JsValues.ParseIntNaN | client/src/components/Admin/content/AudioRecordsList.jsx:31 | a value without digits parses to `NaN` |
| JsValues.SliceRun | client/src/components/Admin/content/AudioRecordsList.jsx:59 | a slice is a contiguous run of at most `end - start` elements |
| JsValues.SpreadFields | client/src/components/Admin/content/Editprofile.jsx:56-58 | object spread copies an object's fields, a string's characters, and nothing of other values |
| AudioRecordsList.VisibleRowsRun | client/src/components/Admin/content/AudioRecordsList.jsx:58-61 | with a positive page size, at most that many rows as one contiguous run in order; otherwise all records |
| AudioRecordsList.EveryRecordOnItsPage | client/src/components/Admin/content/AudioRecordsList.jsx:58-61 | record `i` is row `i % n` of page `i / n`: paging loses nothing |
| AudioRecordsList.Render | client/src/components/Admin/content/AudioRecordsList.jsx:35-90 | guards in order loading, error, missing or empty list, then the table of the visible rows; any error object (always truthy) is handed to `<Alert>` as a child, never as text |
| AudioRecordsList.RenderFixed | client/src/components/Admin/content/AudioRecordsList.jsx:35-39 | the same guards, with the alert showing the error's `message`; no error object reaches React as a child |
| AudioRecordsList.RecordsList.constructor | client/src/components/Admin/content/AudioRecordsList.jsx:12-13 | page 0 and 10 rows per page |
| AudioRecordsList.RecordsList.HandleChangePage | client/src/components/Admin/content/AudioRecordsList.jsx:26-28 | the page becomes the new one |
| AudioRecordsList.RecordsList.HandleChangeRowsPerPage | client/src/components/Admin/content/AudioRecordsList.jsx:30-33 | the page size becomes `parseInt` of the value and the page resets to 0 |
| AudioRecordsList.FirstPageAfterResize | client/src/components/Admin/content/AudioRecordsList.jsx:30-33 | after choosing `n` rows per page, the first `n` records show |
| ContextAdmin.TokenPieceSplits | client/src/ContextAdmin.jsx:13-15 | a matching piece always has a second `=`-field |
| ContextAdmin.FindTokenNull | client/src/ContextAdmin.jsx:13-17 | `find` gives nothing exactly when no piece matches |
| ContextAdmin.GetAdminTokenNull | client/src/ContextAdmin.jsx:11-18 | `null` exactly when no `;`-piece, trimmed, starts with `admin_token=` |
| ContextAdmin.ReadAdminToken | client/src/ContextAdmin.jsx:11-18 | reading `document.cookie` yields the stored admin cookie's value up to its first `=`, or `null` without one |
| ContextAdmin.Store | client/src/ContextAdmin.jsx:47 | writing a cookie sets its value and leaves the other names alone |
| ContextAdmin.Remove | client/src/ContextAdmin.jsx:65 | an expired write drops the cookie and leaves the other names alone |
| ContextAdmin.StoreValid | client/src/ContextAdmin.jsx:47 | the jar keeps one cookie per name after a write |
| ContextAdmin.RemoveValid | client/src/ContextAdmin.jsx:65 | the jar stays valid after a deletion |
| ContextAdmin.StripWspIsTrim | client/src/ContextAdmin.jsx:47 | the browser's stripping of a cookie value removes exactly the spaces and tabs at its ends |
| ContextAdmin.StoredValue | client/src/ContextAdmin.jsx:47 | the stored value never holds `;`, and neither starts nor ends with a space or tab |
| ContextAdmin.AdminContext.constructor | client/src/ContextAdmin.jsx:7-8 | no admin, loading |
| ContextAdmin.AdminContext.CheckAdminToken | client/src/ContextAdmin.jsx:21-39 | asks only with a token; admin is null without one or on failure; loading always ends |
| ContextAdmin.AdminContext.Login | client/src/ContextAdmin.jsx:44-53 | on success the token goes into `admin_token`, which then reads back, and the admin is the returned username; failure changes nothing |
| ContextAdmin.AdminContext.Logout | client/src/ContextAdmin.jsx:55-70 | asks only with a token; without one or on success the cookie and admin are cleared; a failed request changes nothing |
| ContextAdmin.AdminContext.RefreshToken | client/src/ContextAdmin.jsx:72-84 | a new token replaces the cookie; a failure changes nothing; the admin is never touched |
| ContextAdmin.LoggedOutHasNoToken | client/src/ContextAdmin.jsx:55-66 | after logout `getAdminToken` finds no token |
| ContextAdmin.PlainTokenRoundTrip | client/src/ContextAdmin.jsx:47 | a token without `;` or `=` reads back without the spaces and tabs at its ends, so a token without them reads back unchanged |
| ContextAdmin.TokenWithEqualsTruncated | client/src/ContextAdmin.jsx:14-15 | a value holding `=` is cut at its first `=`, and loses its leading spaces and tabs |
| GuideModal.FilteredExactly | client/src/components/FileSpeech/GuideModal.jsx:19-21 | a word is shown iff it is supported and its lowercase form contains the lowercased term, as often as it is listed; the list is a subsequence in order |
| GuideModal.EmptySearchShowsAll | client/src/components/FileSpeech/GuideModal.jsx:18-21 | an empty search shows every word |
| GuideModal.SearchIgnoresCase | client/src/components/FileSpeech/GuideModal.jsx:20 | lowercasing the search term changes nothing |
| GuideModal.Show | client/src/components/FileSpeech/GuideModal.jsx:59 | the count shown is the number of supported words whatever the search, and the chips are exactly the listed words matching the search, each as often as listed |
| GuideModal.CountIgnoresSearch | client/src/components/FileSpeech/GuideModal.jsx:59 | the count does not depend on the search |
| EditProfile.InitialUserData | client/src/components/Admin/content/Editprofile.jsx:12-28 | the initial form data is an active user with a profile object |
| EditProfile.WithField | client/src/components/Admin/content/Editprofile.jsx:56-59 | a spread-merge sets one field and copies every other one |
| EditProfile.ChangeFieldOnly | client/src/components/Admin/content/Editprofile.jsx:54-60 | `handleChange` sets the named field only; `profile` is kept unless named |
| EditProfile.ChangeProfileFieldOnly | client/src/components/Admin/content/Editprofile.jsx:62-71 | `handleProfileChange` sets the named profile field only; other top-level fields are kept |
| EditProfile.ChangeActiveOnly | client/src/components/Admin/content/Editprofile.jsx:73-78 | `handleCheckboxChange` changes `is_active` only |
| EditProfile.ChangesCompose | client/src/components/Admin/content/Editprofile.jsx:54-60 | two edits of one field keep the later; edits of different fields commute |
| EditProfile.ChangeKeepsShape | client/src/components/Admin/content/Editprofile.jsx:54-60 | editing an existing field keeps the set of fields |
| EditProfile.EditProfile.constructor | client/src/components/Admin/content/Editprofile.jsx:12-30 | the initial state values |
| EditProfile.EditProfile.FetchUserData | client/src/components/Admin/content/Editprofile.jsx:35-48 | nothing happens without a user id; otherwise the error is cleared, the reply or a failure message recorded, and loading ends |
| EditProfile.EditProfile.HandleChange | client/src/components/Admin/content/Editprofile.jsx:54-60 | the form data becomes `ChangeField` of the old |
| EditProfile.EditProfile.HandleProfileChange | client/src/components/Admin/content/Editprofile.jsx:62-71 | the form data becomes `ChangeProfileField` of the old |
| EditProfile.EditProfile.HandleCheckboxChange | client/src/components/Admin/content/Editprofile.jsx:73-78 | the form data becomes `ChangeActive` of the old |

## Findings

| source | as written | input that shows it | evidently intended | confidence | as-written member | corrected member |
|---|---|---|---|---|---|---|
| client/src/components/Admin/content/AudioRecordsList.jsx:36 | `<Alert severity="error">{error}</Alert>`, while the analytics context (`client/src/AminAnalytics.jsx:49-54`, `93-98`) stores `error` as an object `{ message, details }` | any failed fetch: `error = { message: 'Failed to fetch audioRecords', details: 'Network Error' }` with `loading` false; React throws because an object is not a valid child | show the text, `{error.message}` | high (not executed) | AudioRecordsList.Render | AudioRecordsList.RenderFixed |

## Left out

- File I/O: the loaders take the file text, and reading and decoding are not modelled. Universal-newline translation (`\r\n` to `\n`) is not modelled.
- The module-level `Translator(...)` constructions (`server/ModelASR/Translator.py:34-39`, `server/routes_service.py:17-23`) are file access at import time. One of them passes `vocab_path=None`, which `open` does not accept. They are not part of this model.
- The `translate` method that `server/routes_service.py:61,63` calls does not exist in `Translator.py`. Neither do the phrase tables, sentence cache and unknown-word report used by `server/translation_socket.py`. The model stops at the dispatch decision.
- Strings.Lower: lowercases ASCII letters only. Python's `str.lower` and JavaScript's `toLowerCase` also map other cased scripts. Thai and Khummuang have no case.
- Strings.IsSpace: whitespace is Python's `str.isspace` table and JavaScript's `trim` table, written out. Nothing else about Unicode is modelled.
- DateFormat.ParseDate: `\d` in `%Y` and `%d` is taken to be ASCII or Thai digits. Python accepts the decimal digits of every script.
- RoutesUser.RegisterCheck: the `\d` of the password rule (`re.search(r"\d", p)`) is taken to be ASCII or Thai digits. Python's `re` matches the decimal digits of every script, so a password whose only digit is, say, an Arabic-Indic digit passes on the server but is refused here.
- RoutesUser.ChangePasswordCheck: the same `\d` narrowing of the password rule as in `RegisterCheck`.
- JsValues.SpreadFields: a Dafny character is one Unicode scalar value. JavaScript spreads a string by UTF-16 code unit, so a character outside the Basic Multilingual Plane gives two properties there (its surrogate halves) but one here.
- ContextAdmin.StoredValue: the browser's removal of the spaces and tabs at the ends of a cookie value (section 5.2 of RFC 6265) is modelled. The refusal, by current browsers, of a value holding control characters is not.
- ASR, `secure_filename`, saving uploads, and deleting audio files in the cleanup are I/O and are left out.
- SQLAlchemy sessions: commit failures other than the ones modelled are left out (a duplicate id on register, a NULL or duplicate e-mail on profile update). Rollbacks, and the generic `except Exception` replies of `update_audio_rating` and `cleanup_expired_records`, are left out too.
- AudioUtils.SaveAudioRecord: the `duration` and formatted `time` columns are not modelled. SHA-256 is computed by the caller.
- JWT creation and cookies, Flask-Login, rate limits and e-mail sending are left out.
- `get_user_profile` is not modelled, beyond the `strftime` of birth dates that `DateFormat.ParseFormat` uses.
- `admin_analytics.py` beyond word counting: SQL aggregates, the `days` window, caching, KMeans and scaling.
- Client: `new Date(birthDate)` parsing and time zones are left out. Ages take the year, month and day a `Date` reports. Numbers are integers, and `parseInt` of a fractional string keeps only its integer part.
- Client: React's batching and re-rendering, `handleSubmit`, snackbars and navigation in `Editprofile.jsx`, and `handleDelete`/`fetchAudioRecords` in `AudioRecordsList.jsx` are network or UI.
- ContextAdmin: the cookie jar is a list of name/value pairs. Paths, domains, expiry dates other than the past one used for deletion, and the browser's ordering of cookies with different paths are not modelled.
- DateFormat.ParseFormat: the round trip is stated for years 1000 to 9999 only. For earlier years, the padding `strftime` gives `%Y` depends on the C library.
- `request.get_json()` returning `None`, and a body field of a type other than string or `null`, are not modelled. The handlers would raise on them.
- `forgot_password`: a failing commit (500) and a failing mail send are not modelled.
- The `login`, `protected`, `check_token` and `refresh` routes (`server/routes_user.py:91-166`) and the `sysAdmin` table are not modelled. They issue and read tokens, and the core does not use that table.
- `client/src/components/Admin/content/Editprofile.jsx:103-112` is the same `calculateAge` as `useUserManagement.jsx:73-84`. It is modelled once, by `ClientAge.CalculateAge`.
