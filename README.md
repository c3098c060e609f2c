# Waitlist sign-up handler, modelled in Dafny

This project models the one piece of logic in the waitlist back end: the
`POST /api/waitlist` handler in `server.js`. The handler takes a `name` and an
`email` and checks that both are present. It then checks the email against the
pattern `^[^\s@]+@[^\s@]+\.[^\s@]+$`. Next it looks the lower-cased email up in
the hosted `waitlist` table. If a row is found, the request is refused. Otherwise
the handler inserts the trimmed name, the lower-cased and trimmed email and a
timestamp. It then counts the table's rows. It answers 400, 409, 500 or 201, and
a 201 response carries the new row's id, its name and the caller's queue position.

Files and modules:

- `wrappers.dfy` (`Wrappers`): `Option` and `Result`.
- `text.dfy` (`Text`): the whitespace class, trimming and lower-casing.
  - `IsSpace` is the ECMAScript WhiteSpace and LineTerminator set. The
    regular-expression escape `\s` and `String.prototype.trim` both use this set.
  - `Trim` is `TrimEnd(TrimStart(s))`.
  - `ToLower` lower-cases the ASCII letters.
- `email_format.dfy` (`EmailFormat`): a small anchored matcher for regular
  expressions built from literal characters and negated classes with `+`.
  - `Email` is the handler's pattern written in that form.
  - `WellFormedEmail` describes the same strings in plain terms: no whitespace,
    exactly one `@`, a non-empty part before it, and a `.` after it that is
    neither the first nor the last character of that part.
  - `EmailRegexCharacterised` proves that the two agree on every string.
- `waitlist.dfy` (`Waitlist`): the handler and its store.
  - `Table` is a class that stands for the hosted table. Its `rows` field is
    a sequence that `Insert` extends.
  - The store has three calls: `FindByEmail`, `Insert` and `CountAll`. Each
    takes a flag that says whether the remote call fails.
  - `Validate` is the presence check followed by the format check.
  - `Position` is the `count || 1` rule.
  - `Register` is the handler, written as a method over a `Table`.
- `scenarios.dfy` (`Scenarios`): short request sequences against a fresh
  table, with what the handler's contract lets a caller conclude.

Behaviour the model keeps from the code:

- A request field counts as present when it is neither absent nor `""`. A
  name made only of whitespace is therefore accepted, and it is stored as `""`.
- The format check runs on the raw email, before anything is trimmed. So an
  email with leading or trailing whitespace gets 400 "Invalid email format".
  The trim at `server.js:61` never changes an accepted email, and the lookup
  key equals the stored email.
- The lookup uses `.single()`, which returns data only when exactly one row
  matches. A failed lookup counts as "not registered". So does a table that
  already holds two rows for the email. In both cases the handler inserts
  again, and `Scenarios.LookupOutageDuplicates` shows that this creates a
  duplicate.
- The stored email is `email.toLowerCase().trim()`: lower-cased first, then
  trimmed, in that order.

An email with leading or trailing whitespace fails the pattern at
`server.js:40` and gets 400 "Invalid email format" before any trimming
(`Scenarios.PaddedEmailRejected`). The same address without the space is
stored as `ada@example.com` with position 1 (`Scenarios.AdaJoins`).

## Model

| member | source | states |
|---|---|---|
| `Text.IsSpace` | server.js:39-61 | the whitespace class shared by the pattern's `\s` and by `trim`: the ECMAScript WhiteSpace and LineTerminator characters, space, tab, the line and paragraph separators, no-break spaces and the byte-order mark |
| `Text.ToLower` | server.js:48 | lower-casing keeps the length, maps each ASCII capital to its lower-case letter, leaves every other character alone, and leaves no ASCII capital |
| `Text.ToLowerIdempotent` | server.js:61 | lower-casing an already lower-cased email changes nothing, so the stored email is its own lookup key |
| `Text.ToLowerNoWhitespace` | server.js:61 | lower-casing never introduces whitespace |
| `Text.Trim` | server.js:60-61 | the trimmed string is no longer than the input and neither starts nor ends with whitespace |
| `Text.TrimCutsSpace` | server.js:60-61 | trimming keeps one contiguous infix of the input and cuts only whitespace on either side of it |
| `Text.TrimNoWhitespace` | server.js:61 | trimming leaves a string without whitespace unchanged |
| `Text.TrimIdempotent` | server.js:60-61 | trimming twice gives the same result as trimming once |
| `Text.TrimAllSpace` | server.js:35-36 | a name made only of whitespace, which passes the presence check, trims to the empty string |
| `EmailFormat.Matches` | server.js:39-40 | `test` of an anchored pattern: the whole string, start to end, must be consumed; `[...]+` takes one or more class members and then any split that lets the rest match; with the constant `Email` this is the handler's pattern, `[^\s@]` excluding whitespace and `@` |
| `EmailFormat.OneOrMoreIntro` | server.js:39 | `[...]+` followed by the rest of the pattern matches a non-empty run of class members followed by a match of the rest |
| `EmailFormat.OneOrMoreElim` | server.js:39 | every match of `[...]+` followed by the rest splits into a non-empty run of class members and a match of the rest |
| `EmailFormat.MatchHasShape` | server.js:39-40 | every string the email pattern accepts is a@b.c with non-empty a, b, c free of whitespace and `@` |
| `EmailFormat.ShapeMatches` | server.js:39-40 | every such a@b.c is accepted by the email pattern |
| `EmailFormat.EmailRegexCharacterised` | server.js:39-40 | the pattern accepts exactly the strings with no whitespace, exactly one `@`, a non-empty part before it, and a `.` inside the part after it that is neither its first nor its last character |
| `EmailFormat.AcceptedEmailIsTrimmed` | server.js:40-61 | an accepted email has no whitespace, so trimming it or its lower-cased form changes nothing, and the lookup key equals the stored email |
| `EmailFormat.LoweredEmailMatches` | server.js:40-61 | the lower-cased form of an accepted email is accepted too |
| `Waitlist.Present` | server.js:35 | JavaScript truthiness of a string field: an absent field or `""` is falsy, any other string (whitespace included) is truthy |
| `Waitlist.Matching` | server.js:45-48 | the rows selected by `eq('email', key)` are exactly the table's rows with that email, and there are none exactly when no row has it |
| `Waitlist.SingleMatch` | server.js:45-49 | the filter selects exactly one row exactly when exactly one row, counted by position, has the key, which is when `.single()` returns data |
| `Waitlist.Table.constructor` | server.js:26-29 | the table the handler talks to starts empty and valid, with the id counter at 0 |
| `Waitlist.Table.FindByEmail` | server.js:45-49 | the lookup returns an id exactly when the call works and exactly one row has the key, and the id is that row's |
| `Waitlist.Table.Insert` | server.js:56-66 | on success, exactly one row is appended, with a fresh id larger than every existing one and the given fields, and the new row is returned; on failure, an error comes back and the table is unchanged |
| `Waitlist.Table.CountAll` | server.js:74-76 | the count is the number of rows, or no count when the call fails |
| `Waitlist.Validate` | server.js:35-42 | a missing or empty field gives 400 "Name and email are required" whatever the email; otherwise 400 "Invalid email format" exactly when the email is not well-formed; no rejection exactly when both fields are present and the email is well-formed |
| `Waitlist.Position` | server.js:84 | the position is at least 1, equals a non-zero count, and is 1 when the count is missing or zero, as `count || 1` gives |
| `Waitlist.AtMostOneMatch` | server.js:45-53 | in a table without duplicate emails, a key matches at most one row |
| `Waitlist.RegisteredEmailFound` | server.js:45-53 | in a table without duplicate emails that holds a row for the lower-cased email, the lookup selects exactly one row, so the request is refused |
| `Waitlist.AppendKeepsInvariants` | server.js:45-66 | appending the handler's row keeps every stored email normalised, and keeps emails unique when the lookup worked |
| `Waitlist.StoredEmail` | server.js:40-61 | for an accepted email, the stored value `toLowerCase().trim()` equals the lookup key `toLowerCase()` and is itself accepted and lower-case |
| `Waitlist.Register` | server.js:32-87 | missing field gives 400 before the format check; a malformed email gives 400; a lookup hit gives 409; an insert failure gives a fixed 500 that hides the store's error; otherwise 201 with one appended row holding the trimmed name, the lower-cased email and the timestamp, and position equal to the new table size, or 1 when the count fails; the table changes only on 201; uniqueness is kept when the lookup works; stored emails stay normalised |
| `Scenarios.FirstSignup` | server.js:56-86 | the first sign-up on an empty table is stored normalised and gets position 1, even when the count call fails |
| `Scenarios.RepeatSignup` | server.js:45-53 | a second sign-up with the same email in any letter case gets 409 "Email already registered" and adds no row |
| `Scenarios.RegisteredIsRefused` | server.js:45-53 | for every table without duplicate emails that already holds a row for the lower-cased email, an accepted request gets 409 "Email already registered" while the lookup works, and the table and id counter are unchanged |
| `Scenarios.LookupOutageDuplicates` | server.js:45-51 | when the lookup call fails, a second sign-up with the same email is inserted, and the table then holds a duplicate |
| `Scenarios.BlankName` | server.js:35-60 | a whitespace-only name is accepted and stored and returned as `""` |
| `Scenarios.PaddedEmailRejected` | server.js:39-42 | `"ADA@Example.COM "` with a trailing space is refused with 400 "Invalid email format" |
| `Scenarios.AdaJoins` | server.js:45-86 | `"ADA@Example.COM"` on an empty table is stored as `ada@example.com` with the name unchanged and position 1 |

## Left out

- Express set-up, JSON body parsing, route registration, `dotenv` and `app.listen` (server.js:1-7, 22, 90-92) are framework plumbing.
- The CORS allow-list and preflight handling (server.js:9-20) are library middleware and have no logic of their own.
- The Supabase client and its query builder (server.js:25-29) are a remote service. `Table` stands in for the table. Whether each remote call fails is an input, `StoreFaults`. Ids are handed out by a counter in `Table`.
- Logging (`console.log`, `console.error`, server.js:23, 69) is left out. The insert error is dropped, as in the code.
- The clock (`new Date().toISOString()`, server.js:62) is left out. The timestamp is a parameter.
- Concurrent requests are left out. Each `Register` call runs alone, so the race between the lookup and the insert is not modelled.
- The count on the 500 path: the code never calls count there. In the model the count has no effect on the table, so skipping it cannot be observed.
- The `success: true` flag of the 201 body is implied by the `Joined` body variant.
- Non-string `name` or `email` values (numbers, objects, on which `.trim()` throws) are left out. The fields are optional strings.
- Text.ToLower: maps only the ASCII letters A-Z. JavaScript's `toLowerCase` applies full Unicode case mapping, which can also change the length of a string.
- Text.IsSpace: strings are sequences of Unicode scalar values, not the UTF-16 code units that JavaScript's regular expressions and `trim` work on.
