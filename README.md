# AIMS student registration, modelled in Dafny

This project models the registration pipeline of the AIMS society's two
registration pages:

- `script.js` is the society portal. It posts each record as JSON to a
  Google Apps Script endpoint and falls back to `localStorage`. Its admin
  queries read through the endpoint.
- `js/script.js` is the LGU portal. It posts each record as a form-encoded
  body and reads only from `localStorage`.

Both pages share the form helpers, which are defined once here:

- `validateEmail`, `formatPhoneNumber`, `generateStudentId` and
  `validateForm`;
- the record builder, which trims the fields, lower-cases the email,
  defaults the interests to `Not specified` and rejects an invalid email
  before anything is saved.

The two pages differ in their state:

- `script.js` keeps a session list that starts empty and is never read
  back from storage. Each save overwrites the stored list with the session
  list, so after a page load earlier registrations are replaced by the new
  ones (`MainSite.TwoRegistrationsReplaceStoredList`).
- `js/script.js` reads the stored list into the session at start-up, so
  earlier registrations are kept (`LguSite.RegistrationPage.InitializeApp`,
  `LguSite.RegistrationAfterReload`).

Both pages increase the member counter after every accepted record, even
when the backend reported a failure.

How the modules are laid out:

- `Text`: ECMAScript whitespace and `trim`, ASCII lower-casing, substring
  search, and decimal rendering.
- `FormHelpers`: the four shared helpers. Form controls are a `Field`
  class whose value and border mark are updated in place.
- `Records`: the record builder, and the stored object with its key order.
- `UriComponent`: `encodeURIComponent` following section 15.1.3.4 of
  ECMA-262 5.1, with UTF-8 as in RFC 3629 and percent-encoding as in
  section 2.1 of RFC 3986. It also has a reference decoder and the
  form-body encoding.
- `Storage`: the `aimsStudents` slot.
- `Remote`: the replies of the Apps Script endpoint and the error messages.
- `Queries`: search and department filter.
- `MainSite` and `LguSite`: each page's global state as a class whose
  methods update it.

Inputs from the environment are parameters:

- the clock and the random draw (`Records.Moment`);
- the reply `fetch` receives (`Remote.PostReply`, `Remote.GetReply`);
- the contents of the storage slot (`Storage.Slot`);
- the answer to `confirm` (`ClearData(confirmed)`).

Where a row cites a `script.js` helper, the identical copy in `js/script.js`
is modelled by the same member:

| helper | js/script.js lines |
|---|---|
| `generateStudentId` | 162-166 |
| `validateForm` | 168-195 |
| `formatPhoneNumber` | 197-209 |
| `validateEmail` | 211-214 |
| email `blur` listener | 547-552 |
| `input` listener | 567-572 |
| record literal | 226-249 |

## Model

| member | source | states |
|---|---|---|
| Text.TrimStartSpec | script.js:771-777 | The leading part `trim` removes is whitespace only. What remains is a suffix of the input and does not start with whitespace. |
| Text.TrimEndSpec | script.js:771-777 | The trailing part `trim` removes is whitespace only. What remains is a prefix and does not end with whitespace. |
| Text.TrimIsCore | script.js:771-777 | `trim()` returns a slice `s[i..j]` with a whitespace-only prefix and suffix, and the result has no whitespace at either end. |
| Text.IsSpace | script.js:771 | The ECMAScript WhiteSpace and LineTerminator code points, which `trim` strips and the regular-expression class `\s` in `validateEmail` (script.js:744) matches. |
| Text.TrimEmptyIffBlank | script.js:706 | `!field.value.trim()` holds exactly when the value is whitespace only or empty. |
| Text.TrimIdempotent | script.js:771 | Trimming an already trimmed value changes nothing. |
| Text.Trim | script.js:771 | `trim`; what it removes and keeps is stated by `Text.TrimIsCore`, `Text.TrimEmptyIffBlank` and `Text.TrimIdempotent`. |
| Text.LowerChar | script.js:772 | `toLowerCase` on ASCII: `A`..`Z` become the letter 32 code points later (`a`..`z`), every other character is returned unchanged (so whitespace, `@` and `.` are kept exactly), and the result is never an upper-case ASCII letter. |
| Text.ToLower | script.js:772 | Same length as the input, and every character is `LowerChar` of the character at the same position. |
| Text.Contains | script.js:959-961 | `includes`: some position at which the needle occurs in the haystack. It is also the placeholder test in `MainSite.Unconfigured` (script.js:78). |
| Text.Decimal | script.js:695 | `Date.now().toString()` gives only digits and denotes the number. It has no leading zero, and its length is the number's digit count: `n < 10^len` and `n >= 10^(len-1)`. |
| Text.LastDigitsValue | script.js:697 | `slice(-k)` of a digit string denotes the value modulo `10^k`. |
| Text.Last | script.js:697 | `slice(-k)`: the whole string when it is shorter than `k`, otherwise its last `k` characters. |
| Text.ZerosValue | script.js:696 | `padStart(3, '0')` adds zeros that do not change the value denoted. |
| Text.PadZeros | script.js:696 | `padStart(n, '0')`: the result has length `n` when the string is shorter, and otherwise is as long as the string. `Text.PadZerosContents` states its contents. |
| Text.PadZerosContents | script.js:696 | `padStart(n, '0')` keeps the string as the end of the result and puts only `0`s in front of it. |
| FormHelpers.ValidateEmailSound | script.js:743-746 | Every address the scan accepts splits into local part, `@`, label, `.` and last label, each non-empty and free of whitespace and `@`. |
| FormHelpers.ValidateEmailComplete | script.js:743-746 | Every address of that shape is accepted by the scan. |
| FormHelpers.FirstAtSign | script.js:743-746 | An `@` with no `@` before it is the one `indexOf` finds, so in an address of the regular expression's shape the scan splits at the pattern's `@`. |
| FormHelpers.ValidateEmailMatchesPattern | script.js:743-746 | The scan accepts exactly the language of `/^[^\s@]+@[^\s@]+\.[^\s@]+$/`: a non-empty local part, `@`, a non-empty label, `.`, and a non-empty last label, with no whitespace or `@` in any part. |
| FormHelpers.ValidateEmail | script.js:743-746 | `validateEmail` as a scan for the first `@`; that it accepts exactly the regular expression's language is `FormHelpers.ValidateEmailMatchesPattern`. |
| FormHelpers.DigitsOnly | script.js:730 | `replace(/\D/g, '')` leaves only digits and never lengthens the value. |
| FormHelpers.DigitsOnlyConcat | script.js:730 | Removing non-digits distributes over concatenation. |
| FormHelpers.DigitsOnlyKeepsDigits | script.js:730 | A value made of digits is left as it is. |
| FormHelpers.DigitsOnlyDropsNonDigits | script.js:730 | A string with no digit becomes empty: every non-digit is removed. With `DigitsOnlyConcat` and `DigitsOnlyKeepsDigits` this fixes the result on every input. |
| FormHelpers.PhoneFormatShape | script.js:729-741 | The three cases of the formatted value: digits starting `92` get a `+` prefix; digits starting `0` get `+92` in place of the `0`; digits starting `3` get `+92` in front. Any other value is the bare digits. |
| FormHelpers.PhoneFormatIdempotent | script.js:729-741 | Formatting an already formatted number changes nothing, so the `input` listener is stable. |
| FormHelpers.PhoneFormatSeesDigitsOnly | script.js:729-741 | The formatted value depends only on the digits typed. |
| FormHelpers.PhoneFormat | script.js:729-741 | The value `formatPhoneNumber` computes; its cases are `FormHelpers.PhoneFormatShape`, and formatting is idempotent (`FormHelpers.PhoneFormatIdempotent`). |
| FormHelpers.FormatPhoneNumber | script.js:729-741 | The field's value becomes the formatted old value, and its mark is untouched. |
| FormHelpers.DrawSuffix | script.js:696-697 | The two-character suffix is two digits denoting `draw % 100`. |
| FormHelpers.ClockLength | script.js:695-697 | The clock has at least six digits exactly when it is at least 100000. |
| FormHelpers.ClockDigits | script.js:695-697 | The clock part is at most six digits denoting `now % 1000000`. |
| FormHelpers.StudentIdShape | script.js:694-698 | The id is `AIMS` followed by 3 to 8 digits. The digits before the last two denote `now % 10^6`, and the last two denote `draw % 100`. The id has exactly 12 characters when `now >= 100000`. |
| FormHelpers.GenerateStudentId | script.js:694-698 | `generateStudentId` from the clock and the draw; its shape and the values its digits denote are `FormHelpers.StudentIdShape`. |
| FormHelpers.MarkField | script.js:705-716 | One `forEach` step. It reports whether the value is blank, marks the field invalid or valid accordingly, and leaves the value unchanged. |
| FormHelpers.MarkFor | script.js:705-716 | The style `validateForm` gives a field: invalid when its value is blank, valid otherwise. |
| FormHelpers.ValidateForm | script.js:700-727 | Every required field is marked by its own value, and no value changes. The form is valid exactly when no value is blank. The first invalid field is the lowest blank index, and there is none exactly when the form is valid. |
| FormHelpers.CheckEmailOnBlur | script.js:1095-1100 | The email `blur` listener keeps the value. A non-empty value that `validateEmail` rejects is marked invalid. An empty or valid value keeps its mark, so this listener never marks a field valid. |
| FormHelpers.MarkOnInput | script.js:1114-1119 | The `input` listener keeps the value. A required control with a non-blank value is marked valid. Any other control keeps its mark, so this listener never marks a field invalid. |
| Records.EmailNormalisation | script.js:772 | `trim().toLowerCase()` yields a trimmed value with no upper-case ASCII, and normalising it again changes nothing. |
| Records.InterestsNormalisation | script.js:777 | `trim() \|\| 'Not specified'` is never blank and is trimmed. It is `Not specified` exactly for a blank input and otherwise the trimmed input. It is stable when applied again. |
| Records.NormaliseEmail | script.js:772 | `email.trim().toLowerCase()`; its result is trimmed, free of upper-case ASCII and a fixed point (`Records.EmailNormalisation`). |
| Records.NormaliseInterests | script.js:777 | `interests.trim() \|\| 'Not specified'`; its cases and stability are `Records.InterestsNormalisation`. |
| Records.BuildRecord | script.js:762-785 | The record is accepted exactly when the trimmed, lower-cased email passes `validateEmail`. Otherwise the error is `Please enter a valid email address`. |
| Records.BuildRecordFields | script.js:762-780 | Shows what an accepted record holds. The id is `generateStudentId`'s. The timestamps come from the clock. Name, phone and student id are trimmed. The email is normalised and valid. Department and year are verbatim. The interests are defaulted, the status is `Active`, and the source is the page's label. |
| Records.RebuildIsIdentity | script.js:762-780 | Re-submitting an accepted record's own values at the same moment rebuilds the same record, so the normalisation is idempotent. |
| Records.BuildIgnoresMomentElsewhere | script.js:763-770 | Two builds of the same form differ only in id, timestamp, date and time. |
| Records.ToEntry | script.js:762-780 | The stored object has each of the 13 properties, with the record's value, in `Object.keys` order (`Records.Fields`). |
| Records.EntryKeys | script.js:762-780 | The stored object has exactly the record's thirteen keys and no other. |
| UriComponent.Utf8RoundTrip | js/script.js:107-109 | The UTF-8 bytes `encodeURIComponent` escapes decode back to the code point, and the lead byte announces the sequence length. |
| UriComponent.ReadPercentAll | js/script.js:107-109 | A run of `%XY` escapes reads back as the bytes it encodes. |
| UriComponent.EncodeURIComponent | js/script.js:107-109 | The output contains only unreserved characters and `%`, so never `&` or `=`. |
| UriComponent.DecodeEncode | js/script.js:107-109 | `decodeURIComponent(encodeURIComponent(s)) == s` for every string. |
| UriComponent.SplitOnJoin | js/script.js:107-109 | Splitting on `&` a string whose first part has no `&` gives that part, then the split of the rest. |
| UriComponent.EncodePairShape | js/script.js:107-109 | An encoded `key=value` has no `&`, and splitting it at its first `=` gives back key and value. |
| UriComponent.EncodePair | js/script.js:107-108 | `encodeURIComponent(key) + '=' + encodeURIComponent(value)`; that it has no `&` and splits back at its first `=` is `UriComponent.EncodePairShape`. |
| UriComponent.FormBody | js/script.js:106-109 | The encoded pairs joined by `&`; a receiver recovers the pairs from it (`UriComponent.FormBodyRoundTrip`). |
| UriComponent.FormBodyRoundTrip | js/script.js:107-109 | A receiver that splits the body on `&`, then each part at its first `=`, and decodes both sides gets back exactly the posted properties in order. |
| Storage.ReadSlot | script.js:684-687 | `localData ? JSON.parse(localData) : []` returns the stored list, or `[]` when the item is missing or empty. It throws exactly for other non-empty text that does not parse. |
| Remote.HttpErrorMessage | script.js:95-97 | The message is `HTTP error! status: ` followed by the status in decimal. |
| Remote.HttpErrorMessageInjective | script.js:95-97 | Distinct statuses give distinct messages. |
| Remote.CaughtMessage | script.js:108-117 | The message in the `catch` is the HTTP-status message for a bad status. Otherwise it is the rejected promise's own message. |
| Queries.Filter | script.js:956-976 | `Array.prototype.filter` returns exactly the entries the test accepts, and never more entries. |
| Queries.FilterConcat | script.js:956-976 | Filtering keeps the order: the filter of `a + b` is the filter of `a`, then the filter of `b`. |
| Queries.FilterIdempotent | script.js:956-976 | Filtering a result again changes nothing. |
| Queries.SearchStudent | script.js:956-966 | A student is in the result exactly when one of name, email or student id contains the term, case-insensitively. A student lacking all three is never listed. |
| Queries.FilterByDepartment | script.js:968-976 | A student is in the result exactly when it has a department containing `dept`, case-insensitively. |
| Queries.SearchIgnoresTermCase | script.js:956-966 | Searching for the lower-cased term gives the same list. |
| Queries.SearchEmptyTerm | script.js:956-966 | The empty term lists every student with a name, email or student id, in order. |
| Queries.SearchConcat | script.js:956-966 | Search over two lists is the search over each, concatenated. |
| Queries.RegisteredStudentIsFound | script.js:956-976 | A stored registration is found by its own email, name or student id, and by its own department. |
| MainSite.RegistrationPage.constructor | script.js:15-16 | The session list starts empty whatever storage holds, and the counter starts at 11. |
| MainSite.RegistrationPage.SaveLocally | script.js:103-104 | `push` then `setItem`: the record is appended, and the slot holds the whole session list. |
| MainSite.RegistrationPage.SendToGoogleSheets | script.js:73-118 | Never throws, and saves the record locally exactly once on every path. When the URL is not configured it resolves `{success: true, method: 'local'}`. When the reply parses it resolves the server's reply. Otherwise it resolves `{success: true, method: 'local', error}` carrying the caught message. |
| MainSite.RegistrationPage.ShowLoading | script.js:819-831 | Sets the button's `disabled` to `show` and nothing else. |
| MainSite.RegistrationPage.ProcessRegistration | script.js:752-817 | An invalid email ends with the error, saving and counting nothing. Otherwise one record is appended, the slot mirrors the session, and the counter rises by one whatever the backend said. The button is enabled again in every case. |
| MainSite.RegistrationPage.Submit | script.js:1077-1085 | Every required field is marked by its own value and keeps it. Registration runs exactly when no required field is blank. When it does not run, the list, slot, counter and button are unchanged. When it runs, the button ends enabled: an invalid email is rejected with the error and changes nothing else, and an accepted record is appended to the list and mirrored to the slot, with the counter up by one. |
| MainSite.RegistrationPage.GetStudentsFromGoogleSheets | script.js:124-147 | Reads local storage when the URL is not configured or the GET fails. Otherwise it returns `data.students` or `[]`. It rejects only on a slot that does not parse. |
| MainSite.RegistrationPage.GetStudentCount | script.js:910-920 | The number of students read, and 0 when the read rejects. |
| MainSite.RegistrationPage.ViewAllStudents | script.js:899-908 | The students read, `[]` when the read rejects. Its length is the count. |
| MainSite.RegistrationPage.Search | script.js:956-966 | The search over what was read. It rejects exactly when the read rejects. |
| MainSite.RegistrationPage.FilterDepartment | script.js:968-976 | The department filter over what was read. It rejects exactly when the read rejects. |
| MainSite.RegistrationPage.InitializeApp | script.js:1014-1023 | The counter becomes `getStudentCount()`. The session list and slot are untouched. |
| MainSite.Unconfigured | script.js:78 | `GOOGLE_SHEETS_URL.includes('YOUR_GOOGLE')`; when it holds, sending saves locally only and reading uses the slot (`MainSite.RegistrationPage.SendToGoogleSheets`, `MainSite.RegistrationPage.GetStudentsFromGoogleSheets`). The URL shipped at script.js:9 does not contain the placeholder, so as written this branch is taken only after the constant is edited back to a placeholder. |
| MainSite.FirstRegistrationReplacesStoredList | script.js:1014-1023 | After a page load (the initial state, then `initializeApp` on `load`) and one accepted registration, the list and the slot hold that one record only, whatever the slot held before. The counter is the loaded count plus one. With the placeholder URL or a failed GET, the loaded count is the length of the stored list (0 if it does not parse), so the counter still includes records the slot no longer holds. |
| MainSite.TwoRegistrationsReplaceStoredList | script.js:15-16 | After a page load and two accepted registrations the slot holds exactly those two records, whatever it held before. The local read returns them, and the counter is the loaded count plus two. |
| LguSite.RegistrationPage.constructor | js/script.js:8-9 | The session list starts empty and the counter starts at 11. |
| LguSite.Max | js/script.js:459 | `Math.max`: at least both arguments and equal to one of them. |
| LguSite.RegistrationPage.InitializeApp | js/script.js:455-463 | A stored list becomes the session list, and the counter becomes `max(counter, length)`. A missing, empty or unparsable item changes nothing. |
| LguSite.Truthy | js/script.js:456 | `if (savedData)`: a stored list or a non-empty text is true; a missing item and the empty string are false. |
| LguSite.RegistrationPage.SaveLocally | js/script.js:140-141 | `push` then `setItem`: the record is appended, and the slot holds the whole session list. |
| LguSite.RegistrationPage.SendToGoogleSheets | js/script.js:104-156 | Posts `FormBody(Fields(record))`, which decodes back to the record's properties, then saves locally exactly once. The result is the parsed reply on success. Otherwise it is `{success: false, error}`: `HTTP error! status: N`, `Invalid JSON response from server`, or the network message. |
| LguSite.RegistrationPage.ShowLoading | js/script.js:279-289 | Sets the button's `disabled` to `show` and nothing else. |
| LguSite.RegistrationPage.ProcessRegistration | js/script.js:220-277 | An invalid email ends with the error, saving and counting nothing. Otherwise one record is appended and mirrored to the slot, and the counter rises by one even after `success: false`. |
| LguSite.RegistrationPage.Submit | js/script.js:526-533 | Every required field is marked by its own value and keeps it. Registration runs exactly when no required field is blank. When it does not run, the list, slot, counter and button are unchanged. When it runs, the button ends enabled: an invalid email is rejected with the error and changes nothing else, and an accepted record is appended to the list and mirrored to the slot, with the counter up by one. |
| LguSite.RegistrationPage.ClearData | js/script.js:670-678 | Only after confirmation: the slot is removed, the session list emptied and the counter reset to 11. Without confirmation nothing changes. |
| LguSite.RegistrationPage.GetStudentCount | js/script.js:439-445 | The stored list's length, 0 when nothing is stored. It throws exactly when the item does not parse. |
| LguSite.RegistrationPage.ViewAllStudents | js/script.js:384-395 | The stored list, or `[]` when nothing is stored or the item does not parse. Its length is the count. |
| LguSite.RegistrationAfterReload | js/script.js:455-463 | After a page load over a stored list and one accepted registration, the slot holds the old list plus the new record. The count is one more, and the counter is `max(11, old length) + 1`. |
| LguSite.ClearThenReload | js/script.js:670-678 | After a confirmed clear and a reload, the count is 0, the list is empty and the counter is 11. |

## Left out

- User-interface effects are not modelled: animations, modals, confetti, focus and scrolling, the `loading` class and button text, `alert` and console logging. Only the button's `disabled` flag and the fields' valid/invalid marks are kept, as `validateForm`, the email `blur` listener and the `input` listener set them.
- The delayed form reset after a successful registration is not modelled: `resetFormWithAnimation` (script.js:801-803, 834-848) sets every value to `''` and restores the neutral border, and `resetForm` (js/script.js:265-267, 291-302) calls `form.reset()` and does the same to the style. In the model the fields keep their values and marks after a registration.
- `fetch` is not modelled; each call receives its reply as a parameter. `script.js` sends its JSON request body through that call, and the JSON text of that body is not modelled.
- `JSON.stringify`/`JSON.parse` of the storage item are abstracted to `Storage.Slot`. Stored JSON that parses to something other than an array of string-valued objects is not modelled, nor is the `null.length` error that would follow in `initializeApp`.
- A storage quota failure in `setItem` is not modelled. In the source it would send `script.js`'s success path into its `catch`, where the record is pushed a second time.
- `Date.now`, `new Date()` renderings and `Math.random` are parameters (`Records.Moment`). The date and time texts are taken as given.
- `toLowerCase` is modelled on ASCII letters only. Other letters keep their case.
- `encodeURIComponent` is modelled only on code points that are not surrogates, because Dafny's `char` excludes lone surrogates. The `URIError` it throws for them is therefore not modelled.
- `downloadStudentData` (XLSX export), `exportJSON` (Blob download), `checkData`, `showAdminInstructions`, `openAdminPanel`, `updateMemberCount` and the animation timers are not modelled. They are browser output or debugging aids that change no modelled state.
- `AIMS_DEBUG.testBackend` in `js/script.js` is not modelled. It passes a three-property debug object to `sendToGoogleSheets`, which appends that object to the session list and rewrites the stored list with it. The model's `SendToGoogleSheets` takes student records only.
- Lines 148-682 of `script.js` are not part of this model. They are an LGU variant of the page code, nested inside the `catch` block of `getStudentsFromGoogleSheets` (script.js:147). It differs from the top-level definitions at script.js:690-1217: its record's source is `'AIMS Website Registration - LGU'` (script.js:237), its `getStudentCount` returns `totalMembers` on failure (script.js:376), and its `initializeApp` only raises the counter (script.js:478-481). The block runs on every failed read. Its function declarations are local to the block and do not rebind the top-level functions the model follows. It adds a `<style>` element, registers `DOMContentLoaded` and `load` listeners after both events have already fired, and reassigns `window.AIMS` to its own variants (script.js:675-682). None of this changes modelled state.
- Which DOM controls carry `required`, and the values `FormData` reads, are given separately to `Submit` (`requiredFields` and `form`). Their correspondence is not modelled.
- The asynchronous interleaving of several submissions is not modelled. Each registration runs to completion, as it does when the disabled button prevents a second submit.
- MainSite.RegistrationPage.GetStudentsFromGoogleSheets: the error of a rejected read is the unparsable text rather than the engine's `SyntaxError` message.
- LguSite.RegistrationPage.GetStudentCount: the error of a rejected read is the unparsable text rather than the engine's `SyntaxError` message.
