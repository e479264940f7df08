# User management: a verified model

This project models the core of a small user-management application. It has three parts:

- **The user schema.** These are the Mongoose field rules of a user record: seven required strings, an anchored email pattern, an unanchored ten-digit mobile rule, two enums, an optional `profile`, and the unique index on `email`.
- **The collection handlers.** These cover create, the paginated list (`parseInt(...) || default` query defaulting, `skip`/`limit` slicing, `Math.ceil` page count), get, partial update with the uploaded file overriding `profile`, delete, the case-insensitive OR search, and the CSV export columns.
- **The edit form.** This covers its initial values, the client-side validation schema, and the submit handler's loop that builds the multipart payload.

Files:

- `wrappers.dfy` (`Wrappers`): `Option`.
- `text.dfy` (`Text`): JavaScript regex character classes `\d` and `\w`, substring containment, ASCII case folding, `Count`/`IndexOf`.
- `email.dfy` (`Email`): the email pattern `^\w+([\.-]?\w+)*@\w+([\.-]?\w+)*(\.\w{2,3})+$`, one predicate per part of the regex. It also holds a shape characterisation proved equivalent to the pattern.
- `user_model.dfy` (`UserModel`): the record, the partial documents (`Fields`), the schema rules for save and for update validators, and the merge an update performs.
- `parse_int.dfy` (`JsParse`): ECMAScript `parseInt` without a radix, and the `|| fallback` defaulting.
- `pagination.dfy` (`Pagination`): `skip`/`limit` slicing and the page count.
- `users_controller.dfy` (`UsersController`): reply outcomes and status codes, the pure handlers (get, list, search, export), and the class `Store`. `Store` holds the collection (a `seq` in insertion order) and the next fresh identifier; its methods `Create`, `Update` and `Delete` change it in place and keep the table invariant (identifiers unique and below `nextId`, emails unique, every user valid).
- `edit_form.dfy` (`EditForm`): the form values, `validationSchema`, and the `onSubmit` FormData loop as a method proved against `SentEntries`.

Interfaces to the outside:

- The uploaded file's name is a parameter: multer's `Date.now()` prefix is not computed.
- A request's `:id` is a parameter of type `IdParam`: well-formed identifier or malformed.
- Yup's `.email()` rule is a parameter `isEmail` of `FormValid`.

Modelling decisions:

- **Empty strings.** A Mongoose `required` String rejects the empty string as well as a missing value (`Present`).
- **Update validation.** The update validators (`runValidators: true`) check only the paths the update supplies (`UpdateValid`).
- **Update error order.** `Update` decides in this order: malformed identifier (400), then failing update validators (400), then unknown identifier (404), then a taken email (400).
- **Malformed identifiers.** The handlers' `catch` blocks answer 400 (`backend/controllers/users.js:81-83`, `:104-106`, `:119-121`), and the model follows them.
- **Page count.** `TotalPages` is `Math.ceil(total / limit)`. Its contract is the definition of the ceiling: the least `p` with `p * limit >= total`.

## Model

| member | source | states |
|---|---|---|
| Text.Lower | backend/controllers/users.js:131-133 | the `i` option's case folding: same length, each character folded to lower case (ASCII letters) |
| Text.Count | backend/models/User.js:18 | number of occurrences of a character; zero exactly when the character does not occur |
| Text.IndexOf | backend/models/User.js:18 | first position of a character, or the length when it does not occur |
| Text.CountAppend | backend/models/User.js:18 | occurrence count is additive over concatenation |
| Text.IndexOfAfter | backend/models/User.js:18 | the first occurrence after a prefix free of the character is at the prefix's length |
| Text.FirstCharAbsent | backend/controllers/users.js:131-133 | text without the key's first character does not contain the key |
| Email.DottedConcat | backend/models/User.js:18 | two word/separator runs with no separator at an edge or twice in a row join into one |
| Email.DottedJoin | backend/models/User.js:18 | such a run followed by a separator and another run is still such a run |
| Email.DottedPrefix | backend/models/User.js:18 | such a run cut just before a separator is still such a run |
| Email.SegmentIsDotted | backend/models/User.js:18 | text matched by `\w+([\.-]?\w+)*` is non-empty word characters and single `.`/`-` separators, none at either end |
| Email.DottedIsSegment | backend/models/User.js:18 | conversely every such text is matched by `\w+([\.-]?\w+)*` |
| Email.SegmentIffDotted | backend/models/User.js:18 | `\w+([\.-]?\w+)*` matches exactly those texts |
| Email.TldAfter | backend/models/User.js:18 | an ending of `.` plus 2 or 3 word characters survives any prefix |
| Email.SuffixesShape | backend/models/User.js:18 | text matched by `(\.\w{2,3})+` starts with `.`, continues as a dotted run, and ends in `.` plus 2 or 3 word characters |
| Email.DomainSplitShape | backend/models/User.js:18 | a domain-part segment followed by the suffix groups has the domain shape |
| Email.ShapeSplitDomain | backend/models/User.js:18 | every text of the domain shape splits into the segment and the suffix groups |
| Email.DottedHasNoAt | backend/models/User.js:18 | neither part of the pattern can contain `@` |
| Email.OnlyAt | backend/models/User.js:18 | with both sides free of `@`, the `@` is the only one and the first one |
| Email.MatchesHasShape | backend/models/User.js:18 | every address the pattern accepts has exactly one `@`, a dotted local part and a domain of the domain shape |
| Email.ShapeMatches | backend/models/User.js:18 | every address of that shape is accepted by the pattern |
| Email.MatchesIffShape | backend/models/User.js:16-19 | the email validator `Matches` accepts exactly the addresses of `Shape` |
| Email.TldOfAddress | backend/models/User.js:18 | an address whose domain has the domain shape ends in `.` plus 2 or 3 word characters |
| Email.AcceptedAddress | backend/models/User.js:16-19 | an accepted email has exactly one `@`, its local part neither starts nor ends with `.` or `-`, and it ends in `.` plus 2 or 3 word characters |
| Email.ShapeEnds | backend/models/User.js:18 | in an address of that shape the `@` is neither first nor last, and the local part neither starts nor ends with `.` or `-` |
| Email.ShapeTld | backend/models/User.js:18 | an address of that shape ends in `.` plus 2 or 3 word characters |
| Email.RejectsWithoutTld | backend/models/User.js:16-19 | an address without such an ending is rejected |
| UserModel.Snapshot | backend/models/User.js:3-50 | the stored record read as a document: each schema path gives the record's value |
| UserModel.ProfilePath | backend/controllers/users.js:24 | with an upload, the path is `/public/uploads/` plus the file name; without one there is none |
| UserModel.Materialize | backend/controllers/users.js:26-37 | the saved record carries the new identifier and exactly the document's values |
| UserModel.DocumentValidByField | backend/models/User.js:4-49 | `DocumentValid` (every schema path meets its `PathRule`) holds iff the seven required paths are present and non-empty, the email matches, the mobile has ten digits in a row, gender is `Male`/`Female` and status is `Active`/`Inactive` (the conjunction `FieldRules`) |
| UserModel.ValidHasFieldRules | backend/models/User.js:4-49 | a valid document meets each of those field rules |
| UserModel.FieldRulesValid | backend/models/User.js:4-49 | a document meeting each field rule is valid |
| UserModel.UpdateHasPatchRules | backend/controllers/users.js:96-99 | a patch that passes the update validators (`UpdateValid`) meets each rule on every path it supplies |
| UserModel.ProfileIrrelevant | backend/models/User.js:43-45 | `profile` is optional and unconstrained: any value, or none, leaves validity unchanged |
| UserModel.MergeByPath | backend/controllers/users.js:91-99 | after an update (`Merge`), a supplied path has the supplied value, an unsupplied path keeps its value, and the identifier is kept |
| UserModel.MergeKeepsValid | backend/controllers/users.js:96-99 | a valid user updated with a patch that passes the update validators is valid |
| UserModel.ValidUserPassesUpdate | backend/models/User.js:4-49 | a valid user's own values pass the update validators |
| UserModel.MergeIdentity | backend/controllers/users.js:91-99 | an empty patch, or a patch of the user's own values, changes nothing |
| UserModel.TrailingDigits | backend/models/User.js:28 | length of the run of digits ending the text: all digits, with a non-digit (or the start) before it |
| UserModel.WindowInPrefix | backend/models/User.js:28 | ten digits in a row in a prefix are ten digits in a row in the text |
| UserModel.TrailingAtLeast | backend/models/User.js:28 | a digit suffix of length n makes the trailing run at least n long |
| UserModel.LongRunHasWindow | backend/models/User.js:28 | a longest digit run of at least n gives a window of n digits |
| UserModel.WindowMakesLongRun | backend/models/User.js:28 | a window of n digits makes the longest digit run at least n |
| UserModel.MobileValidIffLongRun | backend/models/User.js:26-29 | the unanchored `/\d{10}/` (`MobileValid`) accepts exactly the texts whose longest digit run is at least 10 |
| UserModel.MobileExamples | backend/models/User.js:26-29 | `12345678901` and `x1234567890y` pass; anything shorter than 10 characters fails |
| UserModel.EmailExamples | backend/models/User.js:16-19 | `jo.e@ex.com` passes; `not-an-email` and `a@b.c` fail |
| JsParse.TrimStart | backend/controllers/users.js:49-50 | `parseInt` skips exactly the leading white space |
| JsParse.DigitValue | backend/controllers/users.js:49-50 | digit values below the radix; in base 10 exactly the decimal digits |
| JsParse.DigitPrefix | backend/controllers/users.js:49-50 | length of the longest digit prefix: all digits, and the next character is not one |
| JsParse.QueryNumber | backend/controllers/users.js:49-50 | `parseInt(q) \|\| fallback`: the parsed value if it is a non-zero number, else the fallback; an absent value gives the fallback; the result is never 0 for a non-zero fallback |
| JsParse.DecimalString | backend/controllers/users.js:49-50 | decimal text of a number: digits only, no leading zero |
| JsParse.DecimalValue | backend/controllers/users.js:49-50 | decimal text denotes its number |
| JsParse.PrefixOfDigits | backend/controllers/users.js:49-50 | the digit prefix of digits followed by a non-digit is those digits |
| JsParse.UnsignedDecimal | backend/controllers/users.js:49-50 | digits without a `0x` prefix are read in base 10 up to the first non-digit |
| JsParse.UnsignedInput | backend/controllers/users.js:49-50 | text starting (after white space) with a digit has no sign and is read as unsigned |
| JsParse.DecimalUnsigned | backend/controllers/users.js:49-50 | a number's decimal text, before text that does not continue it, reads as that number |
| JsParse.UnsignedStart | backend/controllers/users.js:49-50 | the unsigned reading (`ParseUnsigned`, through `ReadDigits`) is a number exactly when the first character, after a `0x` prefix if any, is a digit of the base |
| JsParse.ParseIntStart | backend/controllers/users.js:49-50 | `parseInt` (`ParseInt`) is NaN unless, after white space, a digit or a sign comes first; it is negative only after a minus sign |
| JsParse.TrimmedStart | backend/controllers/users.js:49-50 | the same for text without leading white space (`ParseTrimmed`) |
| JsParse.UnsignedTrimmed | backend/controllers/users.js:49-50 | text starting with a digit has no sign and is read as unsigned |
| JsParse.NegativeSign | backend/controllers/users.js:49-50 | a minus sign before an unsigned number `m` reads as `-m` |
| JsParse.ReadsOwnDecimal | backend/controllers/users.js:49-50 | a number's decimal text on its own reads back as the number |
| JsParse.QueryParsed | backend/controllers/users.js:49-50 | whatever `parseInt` reads is used unless it is 0, which gives the fallback |
| JsParse.ParseDecimal | backend/controllers/users.js:49-50 | `parseInt` reads back a number's decimal text after leading white space and before trailing non-digits |
| JsParse.TrimSpaces | backend/controllers/users.js:49-50 | white space before non-space text is exactly what is trimmed |
| JsParse.QueryDecimal | backend/controllers/users.js:49-50 | a number's decimal text defaults to the fallback when the number is 0 and is used unchanged otherwise |
| JsParse.NonNumericQuery | backend/controllers/users.js:49-50 | text that does not start a number parses to NaN and gives the fallback |
| JsParse.NegatedDecimal | backend/controllers/users.js:49-50 | a minus sign before a number's decimal text negates it |
| JsParse.ParseHex | backend/controllers/users.js:49-50 | after the sign, `0x1A` reads in base 16 as 26 |
| Pagination.Window | backend/controllers/users.js:51-53 | `skip(start).limit(limit)`: at most `limit` items, item i is item `start + i`, full while enough items remain, empty from the end on |
| Pagination.WindowAfterPrefix | backend/controllers/users.js:51-53 | the items before `start` followed by the window are the first `start + limit` items |
| Pagination.Page | backend/controllers/users.js:51-53 | at most `limit` items; item i is item `(page-1)*limit + i` of the collection; a full page while enough items remain; empty from the end on |
| Pagination.TotalPages | backend/controllers/users.js:62 | `Math.ceil(total/limit)`: the least p with `p*limit >= total` |
| Pagination.PagesUpToPrefix | backend/controllers/users.js:51-53 | pages 1 to n together are the first `n*limit` items |
| Pagination.PagesCoverAll | backend/controllers/users.js:51-63 | pages 1 to `totalPages` together list every item exactly once, in order |
| Pagination.BeyondLastPage | backend/controllers/users.js:51-63 | a page after the last page is empty |
| Pagination.TwelveByFive | backend/controllers/users.js:51-63 | 12 items, 5 per page: 3 pages of 5, 5 and 2, page 4 empty |
| UsersController.IndexOfId | backend/controllers/users.js:76 | position of the first user with the identifier, or the length when none has it |
| UsersController.NewDocument | backend/controllers/users.js:23-35 | the created document takes seven paths from the body and `profile` only from the upload |
| UsersController.UpdateData | backend/controllers/users.js:91-94 | the patch is the body, with `profile` replaced by the upload's path when a file is sent |
| UsersController.GetUser | backend/controllers/users.js:74-84 | malformed id gives 400; an id no user has gives 404; otherwise the stored user with that id |
| UsersController.ListPage | backend/controllers/users.js:51-65 | the reply holds page, limit, the collection size, exactly that page's slice (at most `limit` users) and the ceiling page count; a page after the last is empty |
| UsersController.GetUsers | backend/controllers/users.js:47-69 | `page` and `limit` are the defaulted query values, 1 and 5 when absent; the data is exactly that page's slice, at most `limit` users, and empty after the last page; the page count is the ceiling and the total is the collection size |
| UsersController.Search | backend/controllers/users.js:127-140 | exactly the users that `SearchHit` selects (first name, last name or email contains the key ignoring case), and no more of them than stored |
| UsersController.SearchCounts | backend/controllers/users.js:127-140 | each matching user is found as often as it is stored, every other user never |
| UsersController.SearchAppend | backend/controllers/users.js:129-135 | search distributes over concatenation, so the natural order is kept |
| UsersController.SearchSmith | backend/controllers/users.js:129-135 | `smith` finds `Smith` and not `Ann Jones <ann@example.com>` |
| UsersController.ExportRow | backend/controllers/users.js:148 | a row holds the user's value for each export column, in column order |
| UsersController.ExportTable | backend/controllers/users.js:147-150 | a header of the column names, then one row per user in natural order |
| UsersController.ExportOmits | backend/controllers/users.js:148 | neither `profile` nor an identifier is a column; changing them does not change a row |
| UsersController.SecondPageOfTwelve | backend/controllers/users.js:47-69 | `?page=2&limit=5` over 12 users gives users 6 to 10, 3 pages, 12 in all |
| UsersController.AppendKeepsTable | backend/models/User.js:15 | inserting a valid user with the fresh identifier and an unused email keeps the table invariant `TableValid` |
| UsersController.ReplaceKeepsTable | backend/models/User.js:15 | replacing a user by a valid one with the same identifier and an email no other user has keeps the invariant |
| UsersController.RemoveKeepsTable | backend/controllers/users.js:114 | removing a user keeps the invariant, and afterwards no user has its identifier |
| UsersController.Store.constructor | backend/models/User.js:52 | an empty collection satisfies the invariant |
| UsersController.Store.Create | backend/controllers/users.js:21-42 | succeeds iff the document is valid and its email unused; then exactly one user is appended, with a fresh identifier and the document's values; an invalid document or a taken email gives 400 and no change |
| UsersController.Store.Update | backend/controllers/users.js:89-107 | malformed id gives 400; failing update validators give 400; unknown id gives 404; a taken email gives 400, all with no change; otherwise that user becomes the merge and no other user changes |
| UsersController.Store.Delete | backend/controllers/users.js:112-122 | malformed id gives 400; unknown id gives 404 and no change; otherwise exactly that user is removed and getting it afterwards gives 404 |
| UsersController.CreateTwice | backend/controllers/users.js:21-42 | on an empty store, the first create answers 201 with identifier 0; creating the same user again answers 400 for the duplicate email |
| UsersController.CreateDeleteGet | backend/controllers/users.js:74-122 | create, then delete succeed; getting or deleting the same id afterwards gives 404 |
| EditForm.InitialValues | frontend/src/pages/EditUser.jsx:117-126 | the form starts with the eight stored fields, in order, copied from the fetched user (a missing `profile` as null) |
| EditForm.ValueOfFound | frontend/src/pages/EditUser.jsx:131 | `values[key]`, unless undefined, is the value of an entry with that key |
| EditForm.ValueAtIndex | frontend/src/pages/EditUser.jsx:131 | the first entry with a key is what `values[key]` (`ValueOf`) reads |
| EditForm.NoKeyUndefined | frontend/src/pages/EditUser.jsx:131 | a key with no entry reads as undefined |
| EditForm.DistinctTail | frontend/src/pages/EditUser.jsx:130 | keys stay distinct after the first, and none of them repeats it |
| EditForm.ClientMobileServerAccepts | frontend/src/pages/EditUser.jsx:35 | every mobile the client's anchored rule (`MobileDigits`) accepts, the server's `/\d{10}/` accepts |
| EditForm.ServerMobileClientRejects | frontend/src/pages/EditUser.jsx:35 | the converse fails: `12345678901` passes the server and not the client |
| EditForm.SentEntries | frontend/src/pages/EditUser.jsx:129-134 | no more entries are sent than the form holds |
| EditForm.SentMembers | frontend/src/pages/EditUser.jsx:129-134 | the entries sent are exactly those whose value is neither null nor undefined |
| EditForm.SentEntriesAppend | frontend/src/pages/EditUser.jsx:130-133 | one more key appends its entry when it is sent and nothing otherwise |
| EditForm.BuildFormData | frontend/src/pages/EditUser.jsx:128-134 | the loop builds exactly the sent entries, in the order of the values |
| EditForm.SentByKey | frontend/src/pages/EditUser.jsx:129-134 | the payload has a value for a key iff the form's value is neither null nor undefined, and then it is that value unchanged |
| EditForm.ReceivedPath | frontend/src/pages/EditUser.jsx:137 | each schema path of the received body (`ReceivedBody`) is the string the payload carries under it |
| EditForm.FormRequires | frontend/src/pages/EditUser.jsx:31-39 | every path the server requires, the client schema (`FormValid`) requires as a non-empty string |
| EditForm.RequiredSent | frontend/src/pages/EditUser.jsx:129-134 | a required string is sent unchanged |
| EditForm.RequiredPayload | frontend/src/pages/EditUser.jsx:31-39 | a path the server requires arrives from an accepted form holding the form's non-empty string |
| EditForm.ValidFormPayload | frontend/src/pages/EditUser.jsx:31-39 | an accepted form arrives with all seven required paths present and non-empty, as entered |
| EditForm.ValidFormMobile | frontend/src/pages/EditUser.jsx:35 | the mobile of an accepted form arrives and passes the server's rule |
| EditForm.InitialKeysDistinct | frontend/src/pages/EditUser.jsx:117-126 | the initial values have distinct keys |
| EditForm.UneditedField | frontend/src/pages/EditUser.jsx:117-134 | submitting unedited sends each stored string field back unchanged, and no file |
| EditForm.BodyOfFields | frontend/src/pages/EditUser.jsx:128-134 | a payload that reads as a user's fields under every key arrives as those fields |
| EditForm.UneditedBody | frontend/src/pages/EditUser.jsx:117-134 | the unedited payload arrives as the user's own fields, without a file |
| EditForm.UneditedSubmit | frontend/src/pages/EditUser.jsx:117-134 | submitting a valid user unedited passes the server's update validators and leaves the user unchanged |
| EditForm.StoredUserFormRejected | frontend/src/pages/EditUser.jsx:35 | a stored user's mobile `12345678901` passes the server's mobile rule, but the user's unedited form fails the client schema |

## Left out

- Multer's disk storage and its `Date.now()` file-name prefix (backend/controllers/users.js:6-16): file-system I/O and a clock. The stored file name is an input.
- The json2csv serialisation, meaning quoting and escaping (backend/controllers/users.js:149-154): foreign library code. Only the column list, header and row order are modelled.
- MongoDB and Mongoose mechanics: connections, ObjectId casting (reduced to `IdParam`), how the unique index is enforced (modelled as a table invariant), and any error of the database itself.
- UsersController.GetUsers: requires `page` and `limit` to be positive after defaulting. Negative values flow into `skip`/`limit`, where the driver decides what happens.
- JsParse.ParseInt: the result is an unbounded integer. Numbers above 2^53, where JavaScript's double rounds, are not modelled. Repeated query parameters, which Express turns into arrays, are not modelled either.
- UsersController.Search: the key is taken literally. Regex metacharacters in the key are not modelled. Case folding covers ASCII letters only, not Unicode case folding.
- EditForm.FormValid: Yup's `.email()` rule is the uninterpreted parameter `isEmail`.
- Unknown keys in a request body, including `_id`, are not modelled: create and update read exactly the eight schema paths.
- Update is one atomic step. Concurrent requests racing on the same record are not modelled.
- React rendering, routing, toasts, the axios call, image preview and all other UI code are not modelled.
