# 48Hub student accounts and login, in Dafny

48Hub is a Next.js application for the KFOKAM 48 training programme. This
project models the server-side core that creates and authenticates student
accounts:

- **Matricules** (`Matricule`): the student identifier `K48` + batch + number
  (`K48B1144`). The model covers generation, the two anchored regular
  expressions that validate and parse it, and the rule that gives the next
  number in a batch.
- **Credentials** (`Auth`): the stored `pbkdf2$<iterations>$<salt>$<key>`
  string, its verification, session tokens and the initial password issued to a
  new student. The key derivation (PBKDF2-HMAC-SHA-256, section 5.2 of
  RFC 8018) is a function-typed parameter. Randomness and the clock are
  parameters too.
- **The administrator's student endpoint** (`StudentsRoute`):
  - `GET` builds the listing statement and yields the joined rows.
  - `POST` validates the body and allocates the next number from the existing
    matricules with PostgreSQL `LIKE`, `SUBSTRING`, `CAST` and `MAX`. It then
    inserts the user row and the profile row.
- **The login endpoint** (`LoginRoute`): it looks the user up by matricule,
  verifies the password and stamps the last login on that one row.

Supporting modules:

- `Text`: decimal numerals as JavaScript prints them, `split`/`join`, and
  `parseInt`.
- `Encoding`: bytes, lower-case hex and the base 64 of section 4 of RFC 4648.
- `Sql`: the PostgreSQL integer cast, `LIKE`, `SUBSTRING ... FROM`, and the
  folding of unquoted identifiers.
- `Tables`: the `users` and `student_profiles` tables, held in a `Database`
  class whose methods update them in place.

Behaviour of the code worth knowing:

- A stored hash with the `pbkdf2` tag but a missing salt, or an iteration count
  that is not a number, does not verify to `false`. Node's `pbkdf2` throws
  inside the promise executor, so the promise rejects and login answers 500
  (`Auth.VerifyMalformedFails`).
- The initial password is not random. Only the first 12 bytes of the encoded
  text reach the 16 characters kept, and the random bytes never do
  (`Auth.InitialPasswordIgnoresRandom`).
- `parseMatricule` uses a lazy batch group. The parsed batch is therefore the
  shortest one possible. A batch of two or more characters that ends in a
  digit does not survive the round trip; a one-character batch, a digit
  included, does (`Matricule.ParseGenerateIff`).
- `isValidMatricule(generateMatricule(m))` also holds for an empty batch with a
  number of two or more digits (`Matricule.GenerateIsValidIff`).

## Model

| member | source | states |
|---|---|---|
| `Matricule.GenerateMatricule` | lib/matricule-generator.ts:13-16 | the text is `K48`, then the batch, then at least one character, all of them digits when the number is non-negative |
| `Matricule.IsValidMatricule` | lib/matricule-generator.ts:22-25 | the anchored test: `K48`, then batch characters, ending in a digit, at least five characters (its meaning as the regular expression is `Matricule.IsValidMatriculeMatchesRegex`) |
| `Matricule.GenerateIsValidIff` | lib/matricule-generator.ts:13-25 | a generated matricule is valid iff the batch is `[A-Z0-9]*`, the number is non-negative, and at least two characters follow `K48` |
| `Matricule.GenerateInjective` | lib/matricule-generator.ts:13-16 | for one batch, different numbers give different matricules |
| `Matricule.GenerateExamples` | lib/matricule-generator.ts:6-16 | batch `B1` with number 144 gives `K48B1144`, as the doc comment says |
| `Matricule.IsValidMatriculeMatchesRegex` | lib/matricule-generator.ts:22-25 | the validity test accepts exactly the language of `^K48[A-Z0-9]+\d+$` |
| `Matricule.ValidityExamples` | lib/matricule-generator.ts:18-25 | the documented examples are valid; `K48` and `ADMIN001` are not |
| `Matricule.DigitRunStart` | lib/matricule-generator.ts:32 | the index is where the maximal trailing run of digits starts |
| `Matricule.ParseMatricule` | lib/matricule-generator.ts:31-39 | the parse succeeds iff the text is valid; the batch is the shortest prefix after which only digits remain, and the number is those digits in base 10 |
| `Matricule.ParseExample` | lib/matricule-generator.ts:31-39 | `K48B1144` parses as batch `B`, number 1144 |
| `Matricule.ParseGenerateLetterBatch` | lib/matricule-generator.ts:13-39 | a batch ending in a letter is recovered, along with the number |
| `Matricule.ParseGenerateDigitBatch` | lib/matricule-generator.ts:13-39 | a batch of two or more characters ending in a digit parses back as a strictly shorter prefix of itself |
| `Matricule.ParseGenerateIff` | lib/matricule-generator.ts:13-39 | parse inverts generate iff the batch has one character or ends in a letter |
| `Matricule.ParseGenerateB1` | lib/matricule-generator.ts:6-39 | the documented `B1`/144 matricule parses back as batch `B`, number 1144 |
| `Matricule.GetNextStudentId` | lib/matricule-generator.ts:45-47 | a missing last number gives 1; otherwise the result is the last number plus one |
| `Text.NatToDecimal` | lib/matricule-generator.ts:15 | the numeral is non-empty, all digits, and has no leading zero |
| `Text.DecimalRoundTrip` | lib/matricule-generator.ts:37 | reading a printed numeral in base 10 gives back the number |
| `Text.IntToStringInjective` | lib/matricule-generator.ts:15 | different integers print differently |
| `Text.IntToStringSign` | lib/matricule-generator.ts:15 | the text starts with `-` iff the number is negative |
| `Text.IntToString` | lib/matricule-generator.ts:15 | a non-negative number prints as a non-empty run of digits, a negative one as `-` followed by digits |
| `Text.Split` | lib/auth.ts:25 | `split` always yields at least one field |
| `Text.SplitJoin` | lib/auth.ts:16 | splitting joined fields that hold no separator gives the fields back |
| `Text.JoinSplit` | lib/auth.ts:25 | joining the fields of a split gives the text back |
| `Text.SplitConcat` | lib/auth.ts:25 | splitting `x $ y` is the fields of `x` followed by the fields of `y` |
| `Text.SplitWithoutSeparator` | lib/auth.ts:25 | text without the separator is one field |
| `Text.JsParseIntOfDecimal` | lib/auth.ts:32 | `parseInt` reads back a printed non-negative number |
| `Text.JsParseInt` | lib/auth.ts:32 | a parse succeeds only when the text has a digit |
| `Encoding.Hex` | lib/auth.ts:8 | twice as many characters as bytes, all of them lower-case hex digits |
| `Encoding.HexRoundTrip` | lib/auth.ts:44 | decoding the hex of bytes gives the bytes back |
| `Encoding.HexInjective` | lib/auth.ts:34-35 | different bytes have different hex |
| `Encoding.Base64Encode` | lib/auth.ts:56 | four characters per started group of three bytes, all from the base 64 alphabet when no padding is needed |
| `Encoding.Base64RoundTrip` | lib/auth.ts:56 | decoding the base 64 of bytes gives the bytes back |
| `Encoding.Base64Concat` | lib/auth.ts:56 | the encoding of a whole number of groups followed by more bytes is the concatenation of the two encodings |
| `Encoding.Base64Head` | lib/auth.ts:56 | the first 16 characters of the encoding of 12 or more bytes encode only the first 12 bytes, with no padding |
| `Encoding.AsciiBytes` | lib/auth.ts:56 | `Buffer.from` on ASCII text: one byte per character, with the character's code |
| `Sql.CastInteger` | app/api/admin/students/route.ts:52 | a successful cast is a 32-bit integer |
| `Sql.CastIntegerOfString` | app/api/admin/students/route.ts:52 | casting a printed integer gives it back when it fits 32 bits, and fails otherwise |
| `Sql.LikeMatch` | app/api/admin/students/route.ts:54-55 | PostgreSQL `LIKE` with the default escape `\`: `%` matches any run, `_` one character, `\` quotes the next character (its uses are `Sql.LikeLiteralPrefix` and `Sql.LikeMatchesOwnText`) |
| `Sql.LikeLiteralPrefix` | app/api/admin/students/route.ts:54-55 | for a literal without metacharacters, `LIKE literal%` is a prefix test |
| `Sql.LikeMatchesOwnText` | app/api/admin/students/route.ts:54-55 | a pattern without `\` followed by `%` matches itself followed by any text |
| `Sql.SubstringFrom` | app/api/admin/students/route.ts:52 | from a position inside the text, the result is the rest of the text from there |
| `Sql.FoldIdentifier` | app/api/admin/students/route.ts:52 | folding keeps the length and leaves no upper-case letter |
| `Auth.HashPassword` | lib/auth.ts:7-19 | the result exists iff the derivation succeeds; it splits into the tag, `100000`, the 32-character hex salt and the 64-character hex of the 32-byte key |
| `Auth.VerifyPassword` | lib/auth.ts:24-38 | a tag other than `pbkdf2` is rejected without deriving |
| `Auth.VerifyWellFormed` | lib/auth.ts:24-38 | with the `pbkdf2` tag, at least four fields and a count that `parseInt` reads into [1, 2^31-1], verification derives with the stored salt and that count and compares the keys |
| `Auth.IterationsIsParsed` | lib/auth.ts:32 | the stored count `100000` reads back as 100000 |
| `Auth.VerifyHashedPassword` | lib/auth.ts:7-38 | a produced hash accepts exactly the candidates whose derived key equals the password's, and fails exactly when derivation fails |
| `Auth.VerifyRoundTrip` | lib/auth.ts:7-38 | the hashed password verifies against its own hash |
| `Auth.VerifyIgnoresExtraFields` | lib/auth.ts:25 | fields after the fourth do not affect the verdict |
| `Auth.VerifyIsCaseSensitive` | lib/auth.ts:34-35 | a stored key holding a character outside `[0-9a-f]` never matches |
| `Auth.VerifyMalformedFails` | lib/auth.ts:31-37 | a missing salt, a count that is not a number or a count outside [1, 2^31-1] rejects the promise |
| `Auth.VerifyMalformedExample` | lib/auth.ts:31-37 | the bare text `pbkdf2` makes verification fail rather than return false |
| `Auth.GenerateToken` | lib/auth.ts:43-45 | `2n` lower-case hex characters that decode to the `n` random bytes; `n` defaults to 32 |
| `Auth.GenerateTokenDefault` | lib/auth.ts:43-45 | with the default length the token has 64 characters and decodes to the 32 random bytes |
| `Auth.GenerateInitialPassword` | lib/auth.ts:51-57 | 16 characters of the base 64 alphabet |
| `Auth.InitialPasswordIgnoresRandom` | lib/auth.ts:51-57 | the password is the base 64 of `KFOKAM48` and the first four digits of the clock |
| `Auth.InitialPasswordCollision` | lib/auth.ts:51-57 | two clocks that agree on their first four digits give the same password, whatever the random bytes |
| `Tables.FindByMatricule` | app/api/auth/login/route.ts:20-32 | the index of the first row whose matricule equals the text exactly, or none when no row matches |
| `Tables.WithLastLogin` | app/api/auth/login/route.ts:44-47 | the rows keep their number and every column but `last_login_at`, which becomes the time exactly on the rows with that id |
| `Tables.LastLoginTouchesOneRow` | app/api/auth/login/route.ts:44-47 | with distinct ids, the update changes exactly the matched row's last login |
| `Tables.Database.InsertUser` | app/api/admin/students/route.ts:64-71 | appends the row with a fresh id that is returned; profiles are unchanged |
| `Tables.Database.InsertProfile` | app/api/admin/students/route.ts:74-78 | appends the profile; users are unchanged |
| `Tables.Database.SetLastLogin` | app/api/auth/login/route.ts:44-47 | sets the last login of the rows with that id; nothing else changes |
| `StudentsRoute.BuildListQuery` | app/api/admin/students/route.ts:10-26 | the batch filter and its one parameter are present iff a non-empty batch is given; no parameters are passed as `undefined` |
| `StudentsRoute.StudentRows` | app/api/admin/students/route.ts:10-22 | every row has a student's role and id, and with a batch every row carries that batch |
| `StudentsRoute.StudentRowsComplete` | app/api/admin/students/route.ts:10-22 | every student-profile pair that passes the filter is listed |
| `StudentsRoute.StudentRowsListEveryStudent` | app/api/admin/students/route.ts:10-16 | without a filter every student is listed, with or without a profile |
| `StudentsRoute.StudentRowsSound` | app/api/admin/students/route.ts:10-22 | every listed row is a student of the table joined with one of its own profiles that passes the filter, or, without a filter, a student that has no profile |
| `StudentsRoute.UserRowsSound` | app/api/admin/students/route.ts:10-22 | every row one user contributes is that student joined with one of its profiles that passes the filter, or the student alone when it has no profile and there is no filter |
| `StudentsRoute.ListAsWrittenAlwaysFails` | app/api/admin/students/route.ts:24-26 | sorting on `u.createdAt` makes every listing fail, whatever the tables hold |
| `StudentsRoute.ListOutcome` | app/api/admin/students/route.ts:11-26 | the listing fails when the folded sort column is no column of `users`, and otherwise yields the joined rows (stated by `StudentsRoute.ListAsWrittenAlwaysFails` and `StudentsRoute.ListCorrectedSucceeds`) |
| `StudentsRoute.ListCorrectedSucceeds` | app/api/admin/students/route.ts:11-26 | sorting on `created_at` yields the joined rows |
| `StudentsRoute.Get` | app/api/admin/students/route.ts:6-35 | the students, filtered by the batch when one is given, or the 500 answer |
| `StudentsRoute.MaxSuffix` | app/api/admin/students/route.ts:51-56 | `MAX(CAST(SUBSTRING(...) AS INTEGER))` over the selected rows: a failed cast, NULL, or the maximum (stated by the four lemmas below) |
| `StudentsRoute.MaxSuffixFails` | app/api/admin/students/route.ts:51-56 | the allocation query fails iff a selected suffix is not an integer |
| `StudentsRoute.MaxSuffixNoRows` | app/api/admin/students/route.ts:51-56 | the maximum is NULL iff no row is selected |
| `StudentsRoute.MaxSuffixIsUpperBound` | app/api/admin/students/route.ts:51-56 | the maximum is at least every selected suffix |
| `StudentsRoute.MaxSuffixIsAttained` | app/api/admin/students/route.ts:51-56 | the maximum is the suffix of some selected row |
| `StudentsRoute.MaxIdColumnIsLowerCase` | app/api/admin/students/route.ts:52 | the unquoted alias `maxId` names the column `maxid` |
| `StudentsRoute.NextStudentIdAsWrittenIsOne` | app/api/admin/students/route.ts:51-58 | once the statement is accepted, reading the property `maxId` gives the next number 1 unless the query fails |
| `StudentsRoute.AllocationParamsTyping` | app/api/admin/students/route.ts:52-55 | as written, `$1` appears only as an argument of `CONCAT`, so its type cannot be inferred; with `$1::text` both parameters are typed |
| `StudentsRoute.NextStudentIdAsWritten` | app/api/admin/students/route.ts:51-58 | as written, the allocation statement always throws, so every request that passes validation is answered 500 |
| `StudentsRoute.AsWrittenReissuesMatricule` | app/api/admin/students/route.ts:51-59 | once the statement is accepted, reading `maxId` gives a batch whose student already holds `K48B11` the matricule `K48B11` again |
| `StudentsRoute.NextStudentId` | app/api/admin/students/route.ts:51-58 | none iff the query fails, 1 for an empty batch, otherwise the maximum plus one |
| `StudentsRoute.InBatchIsPrefix` | app/api/admin/students/route.ts:54-55 | for a batch without metacharacters, a user is selected iff it is a student whose matricule starts with `K48` and the batch |
| `StudentsRoute.SuffixOfMatricule` | app/api/admin/students/route.ts:52-55 | a student whose matricule is the batch prefix plus `t` is selected, with suffix `t` cast |
| `StudentsRoute.IssuedMatriculeSuffix` | app/api/admin/students/route.ts:52-59 | a matricule issued for `n` is selected, and its suffix reads back as `n` when `n` fits 32 bits |
| `StudentsRoute.NextMatriculeIsFresh` | app/api/admin/students/route.ts:51-59 | the matricule for the next number differs from every existing student's |
| `StudentsRoute.PrefixMatchingAcrossBatches` | app/api/admin/students/route.ts:52-55 | for batch `B1`, the batch-`B12` matricule `K48B125` counts as 25 |
| `StudentsRoute.PrefixMatchingShorterBatch` | app/api/admin/students/route.ts:52-55 | for batch `B`, `K48B1144` counts as 1144 |
| `StudentsRoute.EscapeInBatchReissuesMatricule` | app/api/admin/students/route.ts:54-59 | for batch `\A`, the existing `K48\A1` is not selected and is issued again |
| `StudentsRoute.EmailOrNull` | app/api/admin/students/route.ts:68 | the email is stored iff it is non-empty |
| `StudentsRoute.Post` | app/api/admin/students/route.ts:37-97 | the answer and both tables are those of `StudentsRoute.PostOutcome` for the old tables; after a 400, or a body that does not parse, nothing changes |
| `StudentsRoute.Create` | app/api/admin/students/route.ts:51-96 | after validation, the answer and both tables are those of `StudentsRoute.CreateOutcome` |
| `StudentsRoute.InsertStudent` | app/api/admin/students/route.ts:63-89 | a throwing user insert writes nothing; otherwise the user row is appended with the issued id, role `student` and the first-login flag; the profile follows only when its insert does not throw, and then the answer is 201 |
| `StudentsRoute.Inserted` | app/api/admin/students/route.ts:58-71 | the new user row is there exactly when the body passes every check before the insert |
| `StudentsRoute.PostValidation` | app/api/admin/students/route.ts:39-48 | 400 exactly for a body missing a required field, and then no row is written; every other failure is the one 500 answer; a body that does not parse writes nothing |
| `StudentsRoute.PostSucceedsIff` | app/api/admin/students/route.ts:37-89 | 201 exactly when the body is complete, the allocation query succeeds, the hash is produced and no insert throws |
| `StudentsRoute.PostRows` | app/api/admin/students/route.ts:63-96 | after a complete body the new user row is appended whenever its insert ran, including when only the profile insert throws; a profile is appended only on a 201, and the answer and the profile describe the new row |
| `StudentsRoute.PostPasswordOpensAccount` | app/api/admin/students/route.ts:60-87 | the password handed back verifies against the hash stored in the new row |
| `StudentsRoute.PostMatriculeIsFresh` | app/api/admin/students/route.ts:51-59 | for a batch without `\`, the issued matricule is held by no existing student |
| `LoginRoute.Post` | app/api/auth/login/route.ts:6-65 | 400 iff a field is missing; the same 401 body for an unknown matricule and a wrong password; 500 on a thrown error; a success only stamps the matched row's last login and returns its id, matricule, role and first-login flag, never the hash |

## Findings

| source | as written | input that shows it | evidently intended | confidence | as-written member | corrected member |
|---|---|---|---|---|---|---|
| app/api/admin/students/route.ts:52-58 | the alias `maxId` is unquoted, so PostgreSQL names the column `maxid`, while the handler reads `rows[0]?.maxId`, which is always `undefined` | once `$1` is typed (the third row), a batch `B1` with the student `K48B11` already present: the next number is 1 and `K48B11` is issued again | read the maximum under the column's real name (or quote the alias), giving the maximum plus one | not executed; high, from PostgreSQL's documented folding of unquoted identifiers | `StudentsRoute.NextStudentIdAsWrittenIsOne` | `StudentsRoute.NextStudentId` |
| app/api/admin/students/route.ts:24 | the listing sorts on `u.createdAt`, which PostgreSQL folds to `u.createdat`; the same statement selects `u.created_at`, and the administrator script inserts into `created_at` | any `GET`, with or without a batch: the statement fails and the answer is 500 | sort on `u.created_at` | not executed; medium-high, because the table's definition is not among the sources and the column name is inferred from the statements | `StudentsRoute.ListAsWrittenAlwaysFails` | `StudentsRoute.ListCorrectedSucceeds` |
| app/api/admin/students/route.ts:52-55 | `$1` appears only as an argument of `CONCAT`, whose parameters are of type `"any"`, and the driver sends the parameters untyped, so PostgreSQL cannot determine the type of `$1` and refuses the statement (SQLSTATE 42P18) | any `POST` whose body has the three fields: the allocation statement throws and the answer is 500 | write `CONCAT('K48', $1::text)` | not executed; medium-high, from PostgreSQL's rules for inferring the types of untyped parameters | `StudentsRoute.NextStudentIdAsWritten` | `StudentsRoute.NextStudentId` |

The rest of the model uses the corrected definitions: `StudentsRoute.Post`
allocates with `NextStudentId` (a typed `$1`, the maximum read under its real
name), and `StudentsRoute.Get` sorts on `created_at`.

## Left out

- Transport and I/O: HTTP requests and responses, JSON parsing, logging and the
  `OPTIONS` handlers. A response is a datatype. A body that is not JSON, or is
  JSON `null`, throws before validation and is a `None` body, answered 500.
  Any other JSON value that is not an object (a number, a string, a boolean,
  an array) destructures to absent fields, so it is a body whose fields are
  all `None` and is answered 400.
- The database connection and `query`. A statement that throws for reasons
  the model does not represent (the connection, a constraint) is a `Fault`
  parameter. The table definitions are not among the sources, so unique
  constraints on `matricule` are not modelled.
- Asynchrony and concurrency. Two concurrent `POST`s for one batch can read the
  same maximum and be given the same matricule; the model runs one request at a
  time.
- PBKDF2 and HMAC-SHA-256 themselves, the random bytes and the clock. They are
  parameters. The model assumes the derivation is deterministic.
- Sorting: `ORDER BY ... DESC` is not modelled. Rows are in table order, and
  the listing does not carry the creation time.
- `Auth.HashPassword`: when the derivation reports an error, the callback
  rejects and then goes on to read `derivedKey`. This throws a second, uncaught
  `TypeError`. The model keeps only the rejection.
- `Auth.VerifyPassword`: the stored key is compared with `===`, not in constant
  time, and the timing is not modelled. A `NULL` hash column is not modelled.
- Request fields of a JSON type other than string or `null` are not modelled.
  The fields are `Option<string>`.
- `Sql.CastInteger`: the numeral forms of PostgreSQL 16 (`0x`, `0o` and `0b`
  prefixes, `_` between digits) are not accepted by the model.
- `Text.JsParseInt`: the result is an exact integer. JavaScript's double
  precision for numerals above 2^53 is not modelled. The same holds for
  `getNextStudentId` and the template `${studentId}` on such numbers.
- `Matricule.ParseMatricule`: the number is the exact value of the digits,
  while `parseInt` rounds a numeral above 2^53 to the nearest double.
- `StudentsRoute.NextMatriculeIsFresh`: it is stated only for batches without
  `\`. With a `\`, the unescaped `LIKE` pattern no longer selects the batch's
  own matricules (`StudentsRoute.EscapeInBatchReissuesMatricule`).
- `StudentsRoute.PostMatriculeIsFresh`: the freshness of the new matricule is
  stated only for batches without `\`, for the same reason.
- `LoginRoute.Post`: with two users holding the same matricule, the model
  takes the first in storage order. The lookup has no `ORDER BY`, so PostgreSQL
  may return either, and the `last_login_at` update can change the physical
  order. Which row logs in is then not determined by the code.
