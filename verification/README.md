# Registration endpoint — a Dafny model

This project models `register.php`, a single PHP endpoint of a user
registration service. A POST carries a registration form. The endpoint
validates every field and collects all failures in one error map keyed by
field. It then looks the email and username up in the `infos` table and
reports clashes with the first row found. Otherwise it inserts the account
with the password hashed. A GET with `action=input_click` echoes
`"Clicked on <input>"`. Every other request is refused with 405. A failed
database connection answers 500 before any of this.

The model is pure and functional:

- `php_text.dfy` (`PhpText`): PHP strings as byte sequences, `trim`,
  `empty`, and `preg_match('/^[a-zA-Z0-9_]+$/')`. The pattern model keeps
  PCRE's rule that `$` also matches before a final line feed.
- `calendar.dfy` (`Calendar`): dates and the whole-year field `y` of
  `date_diff`.
- `validation.dfy` (`Validation`): the seven field rules and the error map.
- `user_store.dfy` (`UserStore`): the `infos` table as a sequence of rows,
  the `email = ? OR username = ?` lookup, and the uniqueness invariant.
- `registration.dfy` (`Registration`): the POST branch. It covers the
  duplicate report built from the first returned row, the insert, and the
  database failure outcomes.
- `endpoint.dfy` (`Endpoint`): connection check, method dispatch, the echo,
  the 405 answer, and the HTTP status of each answer.

The database is a record of booleans (`Db`). They say whether the connection
opens, and whether each of the two statements prepares and executes. mysqli
is taken to report failures by return value, as it does with error reporting
off; it does not throw.
"Today" and the parsed birthdate are parameters. `password_hash` is the
symbolic value `PasswordHash(password)`.

Behaviour of the code a reader might not expect:

- `empty()` treats `"0"` as empty. So a username, name, email or birthdate of
  `"0"` (after trimming, where trimming applies) is "required". A password
  `"0"` gets the "required" message, not the length message.
- The age is the magnitude of `date_diff(...)->y`. A birthdate 18 or more
  years in the future therefore passes the age rule
  (`Validation.FarFutureBirthdatePasses`).
- A failed prepare of either statement answers "Database query error."
  (`QueryFailed`). It comes after validation, not before.
- When the lookup's `execute()` fails, `get_result()` yields false and
  `num_rows` reads as null, so the duplicate check is skipped and the insert
  goes ahead (`Registration.FailedLookupAdmitsDuplicate`).
- The birthdate is stored as submitted, untrimmed. The names, username and
  email are stored trimmed.

## Model

| member | source | states |
|---|---|---|
| PhpText.TrimLeft | register.php:30-33 | the result is a suffix of the input, every dropped byte is trim space, and the result does not start with trim space |
| PhpText.TrimRight | register.php:30-33 | the result is a prefix of the input, every dropped byte is trim space, and the result does not end with trim space |
| PhpText.Trim | register.php:30-33 | the result is an infix of the input surrounded only by trim-space bytes, and neither of its ends is trim space |
| PhpText.TrimIsTheUnpaddedStrip | register.php:30-33 | trimming is canonical: any unpadded infix surrounded by trim space is exactly `Trim(s)` |
| PhpText.TrimIdempotent | register.php:30-33 | trimming an already trimmed value changes nothing |
| PhpText.WordRun | register.php:51 | the greedy `[a-zA-Z0-9_]` run: all bytes before it are word bytes and the byte after it is not |
| PhpText.UsernamePatternLanguage | register.php:51 | the pattern accepts exactly the non-empty word strings, optionally followed by one line feed |
| PhpText.UnpaddedUsernamePattern | register.php:49-53 | on a value with no trailing trim space, such as the trimmed username, the pattern accepts exactly the non-empty word strings |
| Calendar.Age | register.php:72 | the age is the largest number of whole years from the earlier date to the later one, whichever order they are given in |
| Calendar.AgeAtLeast | register.php:72-73 | the age is at least n exactly when the later date is on or after the n-th anniversary of the earlier one |
| Calendar.AgeSymmetric | register.php:72 | swapping birthdate and today does not change the age |
| Validation.RuleMeaning | register.php:41-76 | each field's rule rejects exactly when that field's requirement fails: names and email not blank, username a non-empty word string other than "0", password at least 8 bytes, confirmation equal, birthdate given and at least 18 whole years from today |
| Validation.Validate | register.php:39-76 | a field has a key exactly when its own requirement fails, whatever the other fields hold, and its message is the one its rule gives |
| Validation.RequiredTextFields | register.php:41-57 | first name, last name and email have a key, with the "required" message, exactly when the trimmed value is "" or "0" |
| Validation.UsernameRule | register.php:49-53 | the username has a key exactly when, trimmed, it is not a non-empty word string or is "0"; "" and "0" get the required message, anything else the charset message |
| Validation.PasswordRule | register.php:59-63 | the password has a key exactly when it is shorter than 8 bytes; "" and "0" get the required message, other lengths 1..7 the length message |
| Validation.RepeatPasswordRule | register.php:65-67 | the confirmation has a key exactly when it differs from the password, whatever the password's own rule says |
| Validation.BirthdateRule | register.php:69-76 | the birthdate has a key exactly when its text is "" or "0" or fewer than 18 whole years separate it from today, with the matching message |
| Validation.ValidExactlyWhenAcceptable | register.php:39-79 | the error map is empty exactly when every field requirement holds |
| Validation.EighteenthBirthday | register.php:69-76 | for a birthdate that is given (not "" or "0") and not after today, it passes exactly when it is on or before the day 18 years before today; one day later fails |
| Validation.FarFutureBirthdatePasses | register.php:72-73 | a birthdate 18 or more years after today passes the age rule |
| UserStore.Select | register.php:87-93 | the lookup returns only rows holding the email or the username, returns every such row, and is empty exactly when no row clashes |
| UserStore.FirstConflict | register.php:96 | the index returned is a clashing row with no clashing row before it |
| UserStore.FirstRowIsFirstConflict | register.php:93-96 | the first row fetched is the first clashing row in storage order |
| UserStore.AppendFreshKeepsUnique | register.php:126-135 | appending a row whose email and username are both new keeps both columns unique |
| Registration.DuplicateErrors | register.php:97-104 | the report names the email exactly when the row holds it, and the username exactly when the row holds it, each with its message |
| Registration.LookupDuplicates | register.php:95-107 | the duplicate report is empty exactly when no row clashes, so a clash always stops the insert; when a row clashes, the keys are the fields the first clashing row shares with the request |
| Registration.EmailOnlyReport | register.php:95-104 | when the first clashing row holds the email but not the username, the report is the email message alone |
| Registration.Register | register.php:79-149 | validation failure exactly when the form is not acceptable, with the validation map; duplicate exactly when it is acceptable, the lookup prepares and executes and some row clashes; "Database query error." exactly when acceptable and either the lookup does not prepare or it lets the request through and the insert does not prepare; "Failed to register." exactly when the request gets through and the insert prepares but does not execute; registered exactly when it gets through and the insert prepares and executes; only a registration changes the table, by appending the new row |
| Registration.FirstClashDecidesReport | register.php:95-104 | a duplicate report's keys are decided by the first clashing row alone |
| Registration.LaterUsernameClashUnreported | register.php:90-104 | when the lookup executes and the first clashing row shares only the email, the report names only the email even if a later row holds the username |
| Registration.ReportedClashesExist | register.php:99-104 | every key of a duplicate report names a value some row really holds |
| Registration.RegistrationAppendsOneRow | register.php:126-137 | a registration adds exactly one row, keeps earlier rows, and stores the trimmed first name, last name, email and username, the hash of the password and the submitted birthdate text |
| Registration.RegisterPreservesUnique | register.php:87-137 | if emails and usernames are unique before a request whose lookup executes, they are unique after it |
| Registration.FailedLookupAdmitsDuplicate | register.php:90-137 | when the lookup fails to execute, a valid request whose email a row already holds is registered when the insert prepares and executes, and the table then holds that email twice |
| Registration.TakenValueNeverRegisters | register.php:90-114 | a request whose trimmed email or username some row already holds is never registered while the lookup executes, and is a duplicate whenever it also validates and the lookup prepares |
| Registration.ResubmissionRejected | register.php:87-137 | after a registration, a request reusing its email or username is never registered while the lookup executes, and is a duplicate whenever it also validates and the lookup prepares |
| Endpoint.Handle | register.php:17-161 | no connection gives the connection error; POST is registration; the echo happens exactly for GET with action "input_click", and its message is "Clicked on " followed by the input, or by "" when absent; everything else connected is 405; the table changes only on a registered POST |
| Endpoint.StatusAgreesWithBody | register.php:3-161 | an answer has status 200 exactly when its body says success, and the table changes only with a 200 answer to a POST |
| Endpoint.ClickOnBirthdate | register.php:150-157 | a click on "birthdate" is answered "Clicked on birthdate" and leaves the table alone |

## Left out

- HTTP headers, CORS, JSON encoding and `exit()` plumbing: only each answer's status code and `success` flag are modelled.
- Endpoint.StatusAgreesWithBody: relates the status to the answer's `success` flag, not to the bytes sent. An `input` that is not valid UTF-8 makes `json_encode` return false, so that echo goes out with status 200 and an empty body.
- The mysqli driver: connection, prepare and execute results are booleans in `Db`. Closing statements and the connection is not modelled.
- mysqli exceptions: the model assumes failures come back as return values. With mysqli's exception reporting on (the default from PHP 8.1), a failed prepare or execute throws instead and none of the 500 answers is reached; that uncaught error is not modelled.
- Registration.TakenValueNeverRegisters, Registration.ResubmissionRejected and Registration.RegisterPreservesUnique promise their result only when the lookup executes, because the source ignores the result of `execute()` at line 92 and inserts after a failed lookup.
- `password_hash` is the symbolic `PasswordHash(password)`: no salt, no algorithm. As a constructor it is injective, whereas bcrypt (`PASSWORD_DEFAULT`) reads only the first 72 bytes; no proof relies on injectivity. Checking a stored hash against a password is not part of this endpoint.
- `date_create` parsing and the clock: the form carries the parsed birthdate (`born`) beside its text, and today is a parameter. An unparseable birthdate is a PHP runtime error and is not modelled.
- Calendar.Age: leap-day anniversaries are compared by month and day, as `date_diff` borrows months. Dates are not checked for validity, because `date_create` only yields valid ones.
- MySQL collation: matching is exact byte equality, not case-insensitive. With exact matching, the source's fall-through when the first row yields an empty report (line 107) cannot happen. `Registration.LookupDuplicates` proves this.
- UserStore.Select: the query has no ORDER BY, so MySQL does not promise an order. The model assumes the rows come back in storage order. The contract states membership and the first row, not the order of later rows, which the source never reads.
- Registration.FirstClashDecidesReport, Registration.LaterUsernameClashUnreported and Registration.EmailOnlyReport depend on that storage-order assumption: with another row order, the report comes from whichever clashing row MySQL returns first.
- The check-then-insert race between concurrent requests: requests are sequential. A lost race appears only as `insertExecutes = false`.
- Absent or array-valued `$_POST` / `$_GET` entries: every form field is a string. In PHP an absent field becomes `null`, which `trim` turns into "" but which `!==` tells apart from "".
