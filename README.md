# Social-media backend: validation and persistence core

This project models the account and message core of a small social-media
backend. The model has two layers.

- **Store layer.** `AccountDAO` and `MessageDAO` each own one table of the
  relational store, modelled as a `map<int, Row>` keyed by the
  auto-generated id. A `nextId` counter stands for the auto-increment column.
  Inserts, deletes and updates are methods that change the table in place.
  Their contracts say what the new table is and that every other row is left
  alone. Single-row lookups are functions over the table. The two list queries
  are methods that build their result in a loop, like the `while (rs.next())`
  loops of the source.
- **Service layer.** `AccountService` and `MessageService` check their input
  before they touch a store:
  - registration: the username is non-null and non-blank, the password is
    non-null with at least 4 UTF-16 code units (Java `length()`), and the username
    is not taken;
  - login: plain-text password comparison;
  - message text: not blank and not too long;
  - message author: `posted_by` must name a stored account.

  Reads and deletes pass straight through to the store. Each service holds
  explicit references to the store objects it uses.

Java strings are modelled as follows (module `JavaString`).
- `String.isBlank` becomes `IsBlank`, built on `Character.isWhitespace`.
- `String.length()` becomes `Utf16Length`. It counts UTF-16 code units: a
  character outside the Basic Multilingual Plane counts as two.
- A Java `null` is `None` of `Option`. Request payloads (`AccountForm`,
  `MessageForm`) carry nullable fields.
- The SQL test `column = ?` with a `null` parameter matches no row
  (`ColumnEquals`).

The message-length bounds are modelled exactly as written.
- `createMessage` refuses only a text longer than 255 code units, so 255 is
  accepted (Service/MessageService.java:26).
- `updateMessage` refuses a text of 255 or more (Service/MessageService.java:61).
- Creation and update therefore use different bounds, and the model keeps
  both. `BoundaryIff` proves that they disagree exactly on the non-blank texts
  of Java length 255.
- `createAccount` returns `null` both for an invalid candidate and for a taken
  username (Service/AccountService.java:20, :25). The model does the same.

Queries that read "the first row" (`getAccountByUsername`, `login`) take the
lowest matching id. This is one possible natural order of the store. The list
queries pick the remaining ids in an unspecified order, because the SQL has no
`ORDER BY`.

Modules:
- `JavaString` (strings.dfy)
- `Model` (model.dfy)
- `AccountStore` (account_store.dfy)
- `MessageStore` (message_store.dfy)
- `AccountServices` (account_service.dfy)
- `MessageServices` (message_service.dfy)

## Model

| member | source | states |
|---|---|---|
| `JavaString.IsWhitespace` | src/main/java/Service/MessageService.java:26 | `Character.isWhitespace`: the Unicode space, line and paragraph separators except the non-breaking spaces U+00A0, U+2007 and U+202F, plus U+0009..U+000D and U+001C..U+001F |
| `JavaString.IsBlank` | src/main/java/Service/AccountService.java:18 | `String.isBlank`: every character is whitespace, so the empty string is blank; used at Service/MessageService.java:26 and :61 too |
| `JavaString.CodeUnits` | src/main/java/Service/MessageService.java:26 | a character occupies one UTF-16 code unit inside the Basic Multilingual Plane and two outside it |
| `JavaString.Utf16Length` | src/main/java/Service/MessageService.java:26 | Java length lies between the character count and twice it, and is zero exactly for the empty string |
| `JavaString.Utf16LengthOfBmp` | src/main/java/Service/MessageService.java:61 | for text of Basic Multilingual Plane characters, Java length equals the character count |
| `AccountStore.ColumnEquals` | src/main/java/DAO/AccountDAO.java:21 | the SQL test `column = ?`: true only for a non-null parameter equal to the column, so a null parameter matches no row |
| `AccountStore.Selects` | src/main/java/DAO/AccountDAO.java:73 | the WHERE clauses `username = ?` (line 21) and `username = ? AND password = ?` (line 73), each column compared by `ColumnEquals` |
| `AccountStore.FirstRow` | src/main/java/DAO/AccountDAO.java:21-30 | the result is a stored row, under its own id and in range, that the WHERE clause selects, and no lower id in range is selected; null means no row in range is selected |
| `AccountStore.AccountDAO.GetAccountByUsername` | src/main/java/DAO/AccountDAO.java:16-39 | returns a stored account whose username equals the argument; null exactly when no row has that username, which includes a null argument |
| `AccountStore.AccountDAO.CreateAccount` | src/main/java/DAO/AccountDAO.java:42-64 | the new row carries the generated id (previously unused) and the caller's exact username and password; the table gains exactly that row; the counter grows; the row can be read back by id |
| `AccountStore.AccountDAO.Login` | src/main/java/DAO/AccountDAO.java:68-88 | returns a stored account matching both username and password; null exactly when no row matches both |
| `AccountStore.AccountDAO.IsAccountExist` | src/main/java/DAO/AccountDAO.java:90-106 | true iff some row's account_id equals the argument |
| `AccountStore.AccountDAO.GetAccountById` | src/main/java/DAO/AccountDAO.java:108-125 | non-null iff `IsAccountExist` holds for that id, and then it is the stored account with that id |
| `MessageStore.MessageDAO.CreateMessage` | src/main/java/DAO/MessageDAO.java:14-38 | the returned message has the caller's posted_by, text and epoch and the new previously unused id; the table gains exactly that row; reading that id back yields the same message |
| `MessageStore.MessageDAO.GetAllMessages` | src/main/java/DAO/MessageDAO.java:42-68 | every element is a stored row, no row appears twice, every row appears, and the list is as long as the table |
| `MessageStore.MessageDAO.GetMessageById` | src/main/java/DAO/MessageDAO.java:71-95 | non-null iff a row has that id, and then it is a stored message with that id |
| `MessageStore.MessageDAO.DeleteMessageById` | src/main/java/DAO/MessageDAO.java:97-115 | returns the row as it was before the call (null if missing); afterwards the table is the old one without that id, nothing changes when the id was missing, and a lookup of the id yields null |
| `MessageStore.MessageDAO.UpdateMessage` | src/main/java/DAO/MessageDAO.java:117-136 | on an existing id only that row's text changes (posted_by, epoch and every other row kept) and the re-read row is returned; on a missing id nothing changes and null is returned |
| `MessageStore.MessageDAO.GetMessagesByAccountId` | src/main/java/DAO/MessageDAO.java:138-163 | every element is a stored row posted by the account, no row appears twice, every such row appears, and the list is empty when the account has posted nothing |
| `AccountServices.AcceptableRegistration` | src/main/java/Service/AccountService.java:18-19 | the registration rule: the username is non-null and not blank, and the password is non-null with Java length at least 4 |
| `AccountServices.AccountService.CreateAccount` | src/main/java/Service/AccountService.java:15-30 | an invalid candidate (null or blank username, null password or one shorter than 4 code units) or a taken username yields null and an unchanged table; otherwise exactly one row with the caller's username and password is added; the well-formedness invariant (non-blank unique usernames, passwords of at least 4 code units) is preserved; when usernames were unique before, logging in after a registration with the same credentials returns the new account |
| `AccountServices.AccountService.Login` | src/main/java/Service/AccountService.java:34-40 | returns the same result as `VerifyLogin` for every input |
| `AccountServices.AccountService.VerifyLogin` | src/main/java/Service/AccountService.java:44-52 | a non-null result is a stored account with exactly the given username and password; when no two stored accounts share a username (`UsernamesUnique`), the result is non-null iff such an account exists, so an unknown user and a wrong password both give null |
| `AccountServices.AccountService.IsAccountExist` | src/main/java/Service/AccountService.java:55-58 | true iff some stored account has that id |
| `AccountServices.AccountService.GetAccountByUsername` | src/main/java/Service/AccountService.java:60-63 | a stored account with that username, or null exactly when none has it |
| `AccountServices.AccountService.GetAccountById` | src/main/java/Service/AccountService.java:64-66 | non-null iff `IsAccountExist`, and then the stored account with that id |
| `AccountServices.VerifyLoginMatchesStoreLogin` | src/main/java/Service/AccountService.java:44-52 | when no two stored accounts share a username (`UsernamesUnique`), the service's lookup-then-compare agrees with the store's query on both columns (src/main/java/DAO/AccountDAO.java:68-88) |
| `MessageServices.TextAcceptedOnCreate` | src/main/java/Service/MessageService.java:26 | the creation text rule: non-null, not blank, Java length at most 255 |
| `MessageServices.TextAcceptedOnUpdate` | src/main/java/Service/MessageService.java:61 | the update text rule: non-null, not blank, Java length below 255 |
| `MessageServices.MessageService.CreateMessage` | src/main/java/Service/MessageService.java:25-35 | a null, blank or over-255 text, or an author that is not a stored account, yields null and an unchanged table; otherwise exactly one row with the caller's fields and a fresh id is added; the invariant (valid texts, existing authors) is preserved |
| `MessageServices.MessageService.GetAllMessages` | src/main/java/Service/MessageService.java:38-41 | the store's contract: every stored message once, nothing else |
| `MessageServices.MessageService.GetMessageById` | src/main/java/Service/MessageService.java:43-46 | the store's contract: non-null iff the id is stored, and then that message |
| `MessageServices.MessageService.GetMessagesByAccountId` | src/main/java/Service/MessageService.java:48-51 | exactly the account's messages with no existence check; under the invariant an unknown account gets an empty list, not an error |
| `MessageServices.MessageService.DeleteMessageById` | src/main/java/Service/MessageService.java:54-57 | the store's contract: the prior row is returned and removed, or null with no change; the invariant is preserved |
| `MessageServices.MessageService.UpdateMessage` | src/main/java/Service/MessageService.java:59-67 | a null, blank or 255-or-longer text yields null and no change; otherwise it is the store update (only that row's text changes, null for a missing id); the invariant is preserved |
| `MessageServices.UpdateTextWithinCreateRule` | src/main/java/Service/MessageService.java:61 | every text update accepts is also accepted by creation, and has Java length in [1, 254] |
| `MessageServices.CreateTextLength` | src/main/java/Service/MessageService.java:26 | every text creation accepts has Java length in [1, 255] |
| `MessageServices.BoundaryIff` | src/main/java/Service/MessageService.java:26 | creation accepts and update (Service/MessageService.java:61) refuses a text exactly when it is non-null, non-blank and of Java length 255, characters outside the Basic Multilingual Plane included |
| `MessageServices.BoundaryAt255` | src/main/java/Service/MessageService.java:61 | corollary: a non-blank text of 255 Basic Multilingual Plane characters is accepted by creation and refused by update |

## Left out

- The HTTP controller (routing, JSON, status codes) is not part of this model. The routed handlers' validation only repeats the service rules; the unrouted `updateMessage(Context)` checks `isEmpty()` and `length() <= 255` instead (Controller/SocialMediaController.java:225-226).
- `MessageService.updateMessage(Message)` is not part of this model. It sends raw SQL to a table named `messages` and swallows the failure. Its only caller, the controller's `updateMessage(Context)` (Controller/SocialMediaController.java:212-245), is not registered as a route.
- Connections, `PreparedStatement`/`ResultSet` mechanics and the `SQLException` catch-and-print paths are not modelled. Every store statement succeeds, so the DAOs' `null` returns on a store failure never occur.
- The store's unique and foreign-key constraints are not modelled. Neither is SQL collation: `username = ?` is exact string equality.
- Auto-increment is a counter that hands out fresh positive ids. Its 32-bit limit (`rs.getInt`) is not modelled, and neither is the 64-bit width of the epoch. Ids and epochs are unbounded integers.
- The DAO inserts and updates take non-null strings. A `null` text, username or password reaching a DAO write is not modelled, because every caller rejects nulls first: the services, and the controller's `registerUser` (Controller/SocialMediaController.java:91-98), which calls `AccountDAO.createAccount` directly and is not registered as a route.
- The order of rows returned by a query is not modelled. Single-row reads take the lowest matching id. The list queries promise no order.
- Concurrency is not modelled: the fetch-then-delete and update-then-re-read windows, and concurrent registrations with the same username.
- The static fields that share DAO handles between service instances are replaced by explicit references. So is the static call `AccountService.isAccountExist`: `MessageService` asks the `AccountDAO` object it holds. That second existence check in `createMessage` can never reject, because `GetAccountById` is non-null exactly when `IsAccountExist` holds.
- In the source every `AccountDAO` is a stateless handle on the one `account` table, even when each service builds its own (Service/AccountService.java:12, Controller/SocialMediaController.java:27). In the model the table lives in the `AccountDAO` object, so `AccountService` and `MessageService` see the same accounts only when both are given the same `AccountDAO` object; two separate objects are two separate tables, and a message from an account registered through the other object would be refused. The same holds for `MessageDAO`.
- `Character.isWhitespace` follows the current Unicode separator sets. Changes in older Java versions' Unicode tables are not modelled.
