# CRUD_Autos in Dafny

A model of the vehicle-registration service of CRUD_Autos (`backend/server.js`).
The service keeps one table of vehicles: plate (`placa`), model (`modelo`),
colour (`color`) and contact e-mail (`correo`). It offers five handlers: list,
get by plate, create, update and delete.

The model has two parts.

- **Validators.** The plate check `validarPlaca` and the e-mail check
  `validarCorreo` are predicates on `string`. The plate check asks for a
  province letter (`Placa.Provincias`, which leaves out `D` and `F`) and for
  one of three fixed shapes. `Placa.ValidarPlaca` writes each shape as a
  fixed-length pattern of character classes, and is proved equal to a plain
  description of the three shapes (`Placa.PlateSpec`).
  `Correo.ValidarCorreo` follows the structure of the regular expression: three
  plain runs split by `@` and `.`. It is proved equal to a split-based
  definition (`Correo.EmailSpec`): no white space, exactly one `@` that is not
  the first character, and a dot inside the domain that is neither its first
  nor its last character.
- **Handlers.** Each handler is a pure function from the table and the request
  to a `Reply`. A reply is the HTTP response plus the table afterwards. The
  table is a `map` from plate to row, so no two rows share a plate. The
  listing is a method: it visits the keys in any order and inserts each row
  into a sorted sequence. Everything the database might do besides reporting
  a duplicate key is one `Health` parameter. The auto-increment identifier is
  the `freshId` parameter.

Modules: `Ascii` (case mapping), `Placa`, `Correo`, `Order` (plate order for
the listing), `Autos` (data model, database statements, handlers) and
`AutosProperties` (laws that relate the handlers to the validator
characterisations and to each other).

Three behaviours of the code are worth knowing, and the model keeps them:

- The shape patterns (backend/server.js:28-30) are case-sensitive and run on
  the plate as given. So a create with plate `abc-123` is refused with the
  plate message (`AutosProperties.LowercaseExample`), although line 81
  upper-cases the plate before the insert. As a result, that upper-casing
  never changes a plate that reaches it (`Placa.ValidPlateIsUpper`), and two
  plates that differ only in case can never both reach the insert.
- A model that is too long is refused with the length message only when
  every earlier check passes (backend/server.js:62-76). The first failing
  check decides the answer (`AutosProperties.CreateChecksInOrder`).
- On update, a duplicate plate answers 500, not 400 (backend/server.js:120).
  An absent body plate also answers 500: `placa.toUpperCase()` on line 111
  throws inside the `try`.

## Model

| member | source | states |
|---|---|---|
| Ascii.Upper | backend/server.js:81 | upper-casing keeps the length and maps each ASCII lower-case letter to its capital, leaving every other character alone |
| Ascii.Lower | backend/server.js:81 | lower-casing keeps the length and maps each ASCII capital to its lower-case letter, leaving every other character alone |
| Ascii.UpperFixesExactly | backend/server.js:81 | upper-casing leaves a string unchanged if and only if it has no lower-case letter |
| Ascii.UpperIdempotent | backend/server.js:81 | upper-casing an already upper-cased plate changes nothing |
| Ascii.LowerIdempotent | backend/server.js:81 | lower-casing an already lower-cased e-mail changes nothing |
| Placa.ValidarPlaca | backend/server.js:23-32 | a plate that passes has seven or eight characters and starts with a capital other than D and F |
| Placa.ProvinciasExactly | backend/server.js:21 | the province list holds exactly the capital letters other than D and F |
| Placa.ValidarPlacaCharacterised | backend/server.js:21-31 | a plate passes if and only if it is LLL-DDD, LLL-DDDD or LL-DDDDL (ASCII capitals and digits) and does not start with D or F |
| Placa.ShapesExclusive | backend/server.js:28-30 | no plate has two of the three shapes |
| Placa.LowercaseRejected | backend/server.js:24-31 | any plate with a lower-case letter is refused, although the province look-up upper-cases the first character |
| Placa.ValidPlateIsUpper | backend/server.js:28-31 | upper-casing a plate that passed the check returns the same plate |
| Placa.PlateAcceptedExamples | backend/server.js:23-31 | ABC-123, XYZ-1234 and AB-1234C pass |
| Placa.PlateRejectedExamples | backend/server.js:23-31 | DBC-123, FBC-123, ab-12, abc-123 and the empty string are refused |
| Correo.IsWhitespace | backend/server.js:35 | no printable ASCII character is white space; every white-space character is a control character, the space, or at or above U+00A0 |
| Correo.ValidarCorreo | backend/server.js:34-36 | an accepted address has at least five characters, contains an @, and neither starts nor ends with @ nor starts with white space |
| Correo.ValidarCorreoSound | backend/server.js:34-36 | every address the pattern accepts has no white space, exactly one @ (not first), and a dot inside the domain |
| Correo.ValidarCorreoComplete | backend/server.js:34-36 | every address with no white space, exactly one @ (not first) and a dot inside the domain is accepted |
| Correo.ValidarCorreoCharacterised | backend/server.js:35 | the pattern holds if and only if the split-based definition does |
| Correo.EmailExamples | backend/server.js:35 | a@b.com passes; a@b, "a b@c.com" and noatsign.com are refused |
| Order.LexLess | backend/server.js:40 | a string never sorts strictly before an equal one, and a proper prefix sorts first |
| Order.LexIrreflexive | backend/server.js:40 | no plate sorts before itself |
| Order.LexTransitive | backend/server.js:40 | the plate order is transitive |
| Order.LexTotal | backend/server.js:40 | of two different plates, one sorts before the other |
| Order.LexAsymmetric | backend/server.js:40 | two plates never sort before each other |
| Autos.Missing | backend/server.js:62 | (also line 96) a field counts as present only when it is given and non-empty; an absent or empty field is missing |
| Autos.TooLong | backend/server.js:74 | (also line 104) fields of exactly 50, 30 and 100 characters pass; a field one past its limit (51, 31, 101) is too long |
| Autos.Insert | backend/server.js:79-82 | a successful insert affects one row and adds exactly the new key with the given row, keeping every other row; a duplicate means the key was taken |
| Autos.UpdateWhere | backend/server.js:109-112 | an update that matches no row affects none and changes nothing; one that matches moves the row to its new key, keeping its id and every other row; a duplicate means another row holds the new key |
| Autos.DeleteWhere | backend/server.js:126 | on a healthy database, delete removes exactly the given key, affecting one row if it was present and none otherwise, and keeps every other row |
| Autos.InsertSorted | backend/server.js:40 | inserting a row with a new plate into a sorted listing gives a sorted listing with that row added and nothing else |
| Autos.ListAutos | backend/server.js:38-45 | the listing holds every row of the table once, in strictly ascending plate order, and the table is unchanged; a failing database answers 500 |
| Autos.GetAuto | backend/server.js:47-57 | get answers the row stored under exactly the given plate, or 404 when there is none, or 500; the table is unchanged |
| Autos.CreateAuto | backend/server.js:59-90 | a refused create leaves the table unchanged; a 201 adds exactly one row under the upper-cased plate (which was free), with the e-mail lower-cased and everything else unchanged, and echoes the fields as given |
| Autos.UpdateAuto | backend/server.js:92-122 | a failed update leaves the table unchanged; a 200 moves the row under the URL plate to the upper-cased body plate, which was free or the same, keeping its id, lower-casing the e-mail and echoing the body as given; a 404 means no row had the URL plate |
| Autos.DeleteAuto | backend/server.js:124-136 | delete removes exactly the row under the given plate, or answers 404 with the table unchanged, or 500 |
| AutosProperties.CreateChecksInOrder | backend/server.js:62-76 | create checks presence, plate, e-mail, then lengths; the first failure answers 400 with its message and leaves the table unchanged |
| AutosProperties.CreateOutcome | backend/server.js:78-89 | once the fields pass, a failing database answers 500, a taken plate answers 400 "La placa ya existe", and otherwise the vehicle is created under its plate as given |
| AutosProperties.CreateSucceedsIff | backend/server.js:59-90 | create answers 201 if and only if every check passes, the database is healthy and the plate is free |
| AutosProperties.LowercasePlateRejected | backend/server.js:66-68 | a create whose plate has a lower-case letter is refused with the plate message |
| AutosProperties.LowercaseExample | backend/server.js:66-68 | the request with plate abc-123 is refused with the plate message |
| AutosProperties.CreateThenGet | backend/server.js:79-83 | a created vehicle reads back under its plate with its id, model and colour, and its e-mail lower-cased |
| AutosProperties.CreateThenDelete | backend/server.js:124-132 | deleting a vehicle just created restores the table |
| AutosProperties.CreateTwiceDuplicate | backend/server.js:85-86 | creating the same vehicle again answers "La placa ya existe" and changes nothing |
| AutosProperties.UpdateChecksInOrder | backend/server.js:96-111 | update checks presence of model, colour and e-mail, then the e-mail, then lengths; with these passing, an absent plate answers 500 |
| AutosProperties.UpdateOutcome | backend/server.js:108-121 | once the fields pass: a failing database answers 500, no row under the URL plate answers 404, a collision answers 500, and otherwise the row is replaced as stated |
| AutosProperties.UpdatePlateUnchecked | backend/server.js:96-106 | two update bodies that differ only in their plate get the same 400 answers |
| AutosProperties.UpdateAcceptsRefusedPlate | backend/server.js:92-118 | a body that create refuses for its plate is accepted by update and stored under the upper-cased plate |
| AutosProperties.WrittenValuesNormal | backend/server.js:81 | (also line 111) after a successful create or update, the key written is its own upper-cased form and the stored e-mail its own lower-cased form |
| AutosProperties.UpdateThenGet | backend/server.js:109-118 | an updated vehicle reads back under its new upper-cased plate, keeping its id |
| AutosProperties.AbsentKeyNotFound | backend/server.js:50-51 | with no row under a plate, get, delete and a well-formed update all answer 404 and change nothing |
| AutosProperties.DeleteThenGet | backend/server.js:126-130 | after a delete the plate is not found, and a second delete answers 404 |
| AutosProperties.SortedSameElements | backend/server.js:40 | two strictly sorted sequences with the same elements are equal |
| AutosProperties.ListingUnique | backend/server.js:40 | a table has exactly one listing, whatever order the rows are visited in |
| AutosProperties.ListingExample | backend/server.js:40 | with MNO-1234 and ABC-123 stored, the listing is ABC-123 then MNO-1234 |

## Left out

- The Express application, CORS, JSON body parsing, static files and `app.listen` (backend/server.js:1-11, 138-140): framework plumbing. Routing a request to its handler is not modelled: each handler is its own member.
- The MySQL pool and the asynchronous driver calls (backend/server.js:13-19): the table is an abstract `map` from plate to row. Every database error other than a duplicate key is the `Failing` value of the `Health` parameter.
- The concrete `insertId`: it is the `freshId` parameter, and nothing checks that it is fresh.
- Concurrent requests, pooled connections and last-write-wins between parallel updates: each handler is one atomic step.
- Collation: `WHERE placa = ?` is modelled as an exact key match, and `ORDER BY placa` as character-by-character order. MySQL's default collation would match and order without regard to case or accents.
- `UPDATE`'s affected-row count is taken as the number of matched rows. That is what the mysql2 driver reports by default. An update that changes nothing therefore answers 200, not 404.
- Ascii.Upper: models `toUpperCase` on ASCII letters only. The full Unicode mapping (for example `ß` to `SS`) is not modelled. This never changes a verdict of the plate check, because the shapes admit only ASCII capitals. It does change the stored plate that update writes for non-ASCII input.
- Ascii.Lower: models `toLowerCase` on ASCII letters only, so non-ASCII capitals in an e-mail are stored as given.
- Field values that are not strings (numbers, objects in the JSON body) and JavaScript truthiness beyond "absent or empty": fields are `Option<string>`.
- Lengths: they count characters, whereas JavaScript's `.length` counts UTF-16 code units. The two differ only for characters outside the Basic Multilingual Plane.
- Database column limits on the plate written by update: the table accepts any string as a key.
