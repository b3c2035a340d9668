# Spy Mission console and account server, modelled in Dafny

This project models the two halves of a small "spy mission" web application.

- **The page script (`script.js`).**
  - The case-preserving `CaesarCipher` (encrypt, decrypt, reverse).
  - The standalone lower-casing `cipher` behind the second set of buttons.
  - The console's operation counters and its newest-first history, which holds at most ten entries.
  - The message-strength meter and its label.
  - The experience points of the gamification panel.
  - The dashboard heading chosen from the profile name.
- **The account server (`server.js`).**
  - The `users` table.
  - The signup, login, profile-picture-upload and get-user routes.
  - The upload filter and the 5 MB size limit.
  - The name an uploaded picture is stored under, and the path recorded for the user.

Modules, one per file:

- `js.dfy` (`Js`): the JavaScript semantics the rest relies on.
  - Strings are sequences of UTF-16 code units.
  - The ASCII character classes of the regular expressions.
  - The truncating remainder `%` (`Js.Rem`).
- `ciphers.dfy` (`Ciphers`): both ciphers and `reverse`. Round trips are proved for every shift in 0..26, and a counterexample is given for shift 27.
- `strength.dfy` (`Strength`): `updateStrengthIndicator` as a method with its four tests, proved against a count of the tests that hold, plus `getStrengthLabel`.
- `console.dfy` (`Console`):
  - the `SpyMissionUI` class, with its history and counters;
  - the `Gamification` class, with `xp` and the bar;
  - the dashboard title.
- `uploads.dfy` (`Uploads`):
  - the upload filter, with Node's POSIX `path.extname` modelled in full and the regular-expression test modelled as a substring search;
  - the size limit;
  - the stored file name and the profile path.
- `accounts.dfy` (`Accounts`): the `UsersTable` class and the four routes as methods. Each method returns the status and message the route sends.

Password hashing belongs to the bcrypt library, so it is a parameter. A `Hasher` value holds `hash(password, rounds, salt)` and `verify(password, digest)`. The only property assumed of it is `Sound`: a password verifies against its own digest. This is stated as a precondition where it is needed. Other inputs are parameters as well:

- the current time (`millis`, `now`);
- the random number of the stored name (`random`);
- the salt;
- the history restored from browser storage.

Behaviours of the code worth knowing, which the model keeps as they are:

- **Upload with an unknown `userId`.** The upload route replies 200 "Profile picture updated successfully" even when no row has the id, and then changes no row. See `Accounts.SetPictureNoMatch`.
- **Rejected uploads.** A file refused by the filter or by the size limit is an error passed to Express's default handler. The model answers it with status 500 and the error's message. There is no dedicated status for it.
- **Shifts.** The page does not restrict the shift to 0..25. Any integer is accepted and evaluated with JavaScript's truncating `%`. Outside 0..26 the round trip can fail (`Ciphers.RoundTripFailsBeyond26`).
- **History limit.** The limit is enforced by one `pop`. A history restored with more than ten entries keeps its length instead of shrinking to ten. See `Console.Pushed`.

## Model

| member | source | states |
|---|---|---|
| Js.ToLower | script.js:367 | `toLowerCase` on an ASCII letter gives the lower-case letter at the same alphabet position; anything else is unchanged |
| Js.Rem | script.js:7 | JavaScript `%` by a positive divisor: the result is strictly between -n and n, agrees with the mathematical remainder for a non-negative dividend and is never positive for a non-positive one |
| Js.RemOdd | script.js:7 | the remainder of a negated dividend is the negated remainder; with the non-negative case of `Js.Rem` this fixes every value, e.g. `-1 % 26` is -1 |
| Ciphers.ShiftUnit | script.js:4-9 | a non-letter is returned unchanged; for a non-negative shift a letter keeps its case and its alphabet position becomes (position + shift) mod 26 |
| Ciphers.Encrypt | script.js:2-11 | the ciphertext has the same length, every non-letter stays in place, and for a non-negative shift every letter keeps its case |
| Ciphers.Decrypt | script.js:13-15 | decryption keeps the length; that it undoes encryption is `Ciphers.DecryptEncrypt` |
| Ciphers.Reverse | script.js:17-19 | the reversed text has the same length; its contents are `Ciphers.ReverseAt` |
| Ciphers.CipherUnit | script.js:366-368 | the standalone cipher's replacement leaves non-letters alone |
| Ciphers.Cipher | script.js:364-369 | same length, non-letters unchanged, and no upper-case letter in the output when the effective shift is non-negative |
| Ciphers.Lowered | script.js:367 | lowering keeps the length and leaves no upper-case letter |
| Ciphers.ShiftUnitRoundTrip | script.js:2-15 | one code unit rotated by `shift` and then by `26 - shift` is restored, for shifts 0..26 |
| Ciphers.DecryptEncrypt | script.js:2-15 | `decrypt(encrypt(t, s), s) == t` for every text and every shift in 0..26 |
| Ciphers.EncryptDecrypt | script.js:2-15 | `encrypt(decrypt(t, s), s) == t` for every text and every shift in 0..26 |
| Ciphers.EncryptFullTurn | script.js:2-11 | shifts 0 and 26 leave every text unchanged |
| Ciphers.RoundTripFailsBeyond26 | script.js:7 | with shift 27 "z" encrypts to "a", which decrypts to the backquote (code 96): the round trip fails outside 0..26 because JavaScript's `%` keeps the sign |
| Ciphers.ReverseAt | script.js:17-19 | position i of the reversed text holds the original's position n-1-i |
| Ciphers.ReverseReverse | script.js:17-19 | reversing twice gives back the text |
| Ciphers.CipherUnitRoundTrip | script.js:364-369 | a code unit rotated by the standalone cipher and back comes out lower-cased, for shifts 0..26 |
| Ciphers.CipherRoundTrip | script.js:364-369 | `cipher(cipher(t, s), s, true)` is `t` with its ASCII letters lower-cased (other code units unchanged), for every shift in 0..26: the case of the input is lost |
| Ciphers.CipherIsLoweredEncrypt | script.js:364-369 | for a non-negative shift the standalone cipher equals `CaesarCipher.encrypt` followed by lower-casing |
| Strength.CountHolding | script.js:119-124 | the number of tests passed is at most the number of tests, and is zero exactly when none passes |
| Strength.UpdateStrengthIndicator | script.js:117-128 | the score is 25 per test passed (length over 8, an upper-case letter, a lower-case letter, a digit), hence one of 0, 25, 50, 75, 100, and the caption is "Message Strength: " followed by the label of that score |
| Strength.StrengthLabel | script.js:130-135 | the label is Weak exactly for scores up to 25, Medium for 26 to 50, Strong for 51 to 75 and Very Strong above 75 |
| Strength.LabelMonotone | script.js:130-135 | a higher score never gets a weaker label |
| Strength.LabelOfTestsPassed | script.js:117-135 | at most one test passed is Weak, two Medium, three Strong, four Very Strong |
| Strength.VeryStrongExactly | script.js:117-135 | the label is Very Strong exactly when the text is longer than 8 and has an upper-case letter, a lower-case letter and a digit |
| Console.Pushed | script.js:90-91 | after adding an entry it is first, the older entries follow in order, and one is dropped from the end only when the list would exceed ten; a history of at most ten stays at most ten |
| Console.PushedAllLength | script.js:90-91 | starting from at most ten entries, after any run of additions the history holds min(old + added, 10) entries |
| Console.PushedAllNewestFirst | script.js:90-91 | starting from at most ten entries, after any run of additions entry k is the item of the k-th most recent addition, for every k below both ten and the number of additions |
| Console.SpyMissionUI.constructor | script.js:23-29 | the console starts with the restored history and the counters shown on the page |
| Console.SpyMissionUI.AddToHistory | script.js:81-94 | the new history is the old one with the entry pushed in front and trimmed to the limit |
| Console.SpyMissionUI.HandleOperation | script.js:58-79 | encrypt bumps only the encrypt counter and decrypt only the decrypt counter, reverse neither; the output is the chosen transform of the input and it is recorded in the history |
| Console.Gamification.constructor | script.js:346 | the points start at 0 with a consistent bar |
| Console.Gamification.UpdateXP | script.js:347-351 | the points grow by the amount and the bar shows `xp % 100` in JavaScript's sense, which lies in 0..99 whenever the points are not negative |
| Console.Gamification.CipherButton | script.js:383-403 | encrypt and decrypt show the standalone cipher's result and add 10 points, reverse shows the reversed text and adds 5; the bar stays consistent |
| Console.DashboardTitle | script.js:303-305 | the heading is the profile name (or "Agent" when the name is empty) followed by " Dashboard"; `saveProfile` at script.js:284 uses the same rule |
| Console.DashboardTitleInjective | script.js:303-305 | two names give the same heading only when they are equal or are "" and "Agent" |
| Uploads.Lowered | server.js:76 | ASCII lower-casing of the extension keeps its length (see "Left out" for non-ASCII characters) |
| Uploads.Contains | server.js:75-77 | the search succeeds exactly when the word occurs somewhere in the string, the unanchored test of a regular expression |
| Uploads.MatchesAllowedTypes | server.js:75-77 | the test of the pattern of four alternatives holds exactly when one of "jpeg", "jpg", "png", "gif" occurs in the string |
| Uploads.NoAllowedType | server.js:75-77 | a string without "j", "n" and "f" matches none of the allowed types |
| Uploads.Extname | server.js:76 | `path.extname` is empty or a dot followed by no other dot or slash, and is a proper suffix of the base name |
| Uploads.ExtnameNonEmpty | server.js:76 | `path.extname` is non-empty exactly when the last component is not ".." and has a dot past its first character; with `Uploads.Extname` the extension is then the text from the last dot on |
| Uploads.FileFilter | server.js:74-84 | a file is accepted exactly when an allowed word occurs in its lower-cased extension and in its MIME type; an accepted extension has at least four characters |
| Uploads.Screen | server.js:71-85 | an upload passes exactly when the filter accepts it and it is at most 5 MB; the filter is asked first, so a refused file is rejected with "Only image files are allowed!" whatever its size, and an accepted file over 5 MB with "File too large" |
| Uploads.DecimalString | server.js:66 | the decimal rendering of a number is non-empty, all digits, and has two or more digits exactly when the number is at least 10 |
| Uploads.UniqueSuffix | server.js:66 | the unique suffix contains neither a dot nor a slash |
| Uploads.ProfilePath | server.js:169-171 | the recorded path is exactly "/uploads/" followed by the stored file name |
| Uploads.ProfilePathInjective | server.js:169-171 | different stored names give different recorded paths |
| Uploads.StoredNameLayout | server.js:65-68 | the stored name is "profile-", then the unique suffix, then the extension of the client's file name, each at its own position |
| Uploads.ExtnameOfPlainName | server.js:67 | `path.extname` of a dot-free stem followed by an extension is that extension |
| Uploads.StoredNameKeepsExtension | server.js:65-68 | the stored name has the same extension as the original name |
| Uploads.StoredNameInjective | server.js:65-68 | for suffixes without "." or "/", equal stored names have equal suffixes and equal extensions |
| Uploads.DecimalStringInjective | server.js:66 | different numbers render differently |
| Uploads.UniqueSuffixInjective | server.js:66 | different (time, random) pairs give different suffixes |
| Uploads.StoredNamesDistinct | server.js:65-68 | uploads made at different times or with different random numbers are stored under different names |
| Uploads.FilterRefusesNonImageExtension | server.js:74-84 | a file whose extension holds no "j", "n" or "f" (".exe", for one) is refused whatever its MIME type |
| Uploads.FilterIsCaseSensitiveOnType | server.js:77 | the filter function does not lower-case the type it is handed: it refuses "image/PNG" for every name |
| Accounts.Public | server.js:154 | the reply view of a row keeps the id, username, email, phone, picture and creation time, and has no password field (also the column list at server.js:191) |
| Accounts.PublicIgnoresPassword | server.js:154 | what a client sees of a row does not depend on its stored digest |
| Accounts.FirstMatch | server.js:102 | the lookup returns the first row satisfying the condition, or nothing exactly when no row does |
| Accounts.SetPicture | server.js:173 | `UPDATE ... WHERE id = ?` sets the picture of the rows with that id and leaves every other row and field unchanged |
| Accounts.SetPictureNoMatch | server.js:173-181 | an update with an id no row has changes nothing |
| Accounts.InsertKeepsInvariant | server.js:45-53 | inserting a row with a fresh id, username and email keeps ids, usernames and emails unique |
| Accounts.SetPictureKeepsInvariant | server.js:45-53 | setting a picture keeps the uniqueness constraints |
| Accounts.UsersTable.constructor | server.js:44-54 | the table starts empty and satisfies its constraints |
| Accounts.UsersTable.Signup | server.js:93-130 | a missing field gives 400 "Username, email, and password are required" and an email or username already in use gives 400 "User already exists", both leaving the table unchanged; otherwise one row is appended with the next id, the hashed password (10 rounds), the phone and no picture, and its id is returned |
| Accounts.UsersTable.Login | server.js:132-160 | a missing field gives 400; login succeeds exactly when a row has the email and the password verifies against its digest, and then returns that row without its password; otherwise 401 "Invalid credentials" whether the email or the password was wrong |
| Accounts.UsersTable.UploadProfilePicture | server.js:162-186 | no file gives 400 "No file uploaded"; a refused file gives 500 with the refusal; otherwise the picture of the row with `userId` becomes "/uploads/profile-<suffix><ext>" and that path is returned |
| Accounts.UsersTable.GetUser | server.js:188-202 | the user is found exactly when a row has the id, and is then that row without its password; otherwise 404 "User not found" |
| Accounts.SignupThenLogin | server.js:93-160 | after a successful signup, logging in with the same email and password succeeds and returns the created row |
| Accounts.UploadThenGetUser | server.js:162-202 | for an existing id, the upload succeeds exactly when the file passes the filter and the size limit, the user is still found afterwards, and after a successful upload get-user shows the new picture path |

## Left out

- The page's DOM work is not modelled, because it is display only: event binding, modals, themes, animations, the clipboard, voice input, QR codes, PDF and JSON export, and the bar widths.
- Browser storage (`saveHistory`, `loadHistory`, `saveProfile`, `loadProfile`, the "delete account" affordance) is not modelled as storage. The restored history is a constructor parameter, and only the heading rule of the profile functions is modelled.
- The timestamp of a history entry (`toLocaleString`) is left out, because it comes from the clock.
- The shift is taken as an exact integer. The page computes `code - base + shift` (script.js:7 and 367) in a JavaScript double, which rounds once the sum passes 2^53. The model does not capture that rounding.
- `parseInt` of the shift field is not modelled, and neither is the `NaN` a blank field gives. The shift is an integer parameter.
- The console's counters are not read from the page. They start at values given to the constructor.
- Console.Gamification.CipherButton: the typewriter `typeOutput` (script.js:371-380) is not modelled, and it does change what is shown for an empty text. It appends `text[0]` before checking the length, so an empty result shows "undefined". The method returns the text that is passed to `typeOutput`, which is "" in that case.
- The client-side login button, which only writes browser storage, is not modelled.
- The client-side size check of `handleFileUpload` is not modelled. Only the server's limit is.
- Strings on the server are Dafny strings of Unicode scalar values, while the page script works on UTF-16 code units. Names, emails and file names outside the Basic Multilingual Plane are therefore not modelled unit by unit.
- The hashing library's remaining promises are not stated, because they belong to bcrypt and not to this code. A digest never equals the plaintext, and salting makes repeated hashes of one password differ. Only "a password verifies against its own digest" is assumed.
- Database and server errors are not modelled. These are the 500 replies "Database error", "Failed to create user", "Failed to update profile picture" and "Server error", which storage failures trigger.
- Concurrency is not modelled, including the check-then-insert race of signup. Each route runs to completion on the table.
- Writing the uploaded bytes to disk and creating the upload directory are not modelled, and neither is the choice between the two directories by environment. The recorded path is the same in both environments.
- Uploads.FilterIsCaseSensitiveOnType: the MIME type the filter sees is whatever the multipart parser hands it, and the parser is not modelled. If the parser lower-cases the part's Content-Type, an upload declared as "image/PNG" reaches the filter as "image/png" and passes. The lemma is about the filter function as written.
- Uploads.Lowered: lower-cases ASCII only, while `toLowerCase` at server.js:76 lowers every character, and U+0130 even becomes two code units. So the model's extension can differ from the real one in length and in its non-ASCII characters. The filter's verdict is unaffected. Every allowed word is ASCII, and the only non-ASCII characters that lower into ASCII are U+0130 (to "i" plus a combining dot) and U+212A (to "k"). Neither "i" nor "k" appears in "jpeg", "jpg", "png" or "gif", and the combining dot cannot be part of an occurrence.
- Upload errors other than the filter and the size limit are not modelled. An unexpected field name is one of them.
- Request fields that are JSON values other than strings are not modelled. A field is a string or absent.
- The `userId` of the upload form and of the `/api/user/:id` route is given as an optional integer. SQLite's conversion of the text it receives into an integer is not modelled.
- Created rows take `created_at` as a parameter (`now`) instead of reading the database clock.
- The health endpoint, CORS, JSON parsing and static file serving are not modelled, because they are framework configuration.
