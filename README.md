# Contact-message intake of a portfolio site, in Dafny

The site's only logic beyond page layout is the contact-message intake.
A visitor fills in a four-field form (name, email, subject, message).
The browser checks the fields and posts them to `POST /api/contact`.
The Express backend checks them again and inserts a row into the MySQL `contacts` table.
An admin page lists the rows through `GET /api/messages`, newest first.
It marks one read through `PUT /api/messages/:id/read` and then updates its own copy of the list.

The model has six modules, one per file:

- `EmailPattern` (`email_pattern.dfy`): the pattern `^[^\s@]+@[^\s@]+\.[^\s@]+$`, which the server and the form both use.
  `Matches` is the pattern as written: a split `local@host.tld` into three runs of characters that are neither whitespace nor `@`.
  `IsValidEmail` states the same test on indices: no whitespace, a sole `@` with something before it, and a `.` inside the part after it.
  `MatchesIffValid` proves the two are the same test.
- `ContactRecord` (`contact_record.dfy`): the table row and `SetReadWhere`.
  `SetReadWhere` is the update "mark every row with this id read". It is the server's `UPDATE … WHERE id = ?` and the admin panel's `messages.map(…)`.
- `ContactServer` (`contact_server.dfy`): the class `ContactsTable`.
  Its fields are the rows in insertion order, the AUTO_INCREMENT counter, and `connected`, which stands for the global `db` handle being set.
  Its methods are the three handlers. The module also holds the error-code mapping of the POST handler.
- `ContactForm` (`contact_form.dfy`): the form's state as a class, `handleInputChange`, and `handleSubmit` with its checks and notifications.
- `AdminPanel` (`admin_panel.dfy`): the local list update of `markAsRead`.
- `Wrappers` (`wrappers.dfy`): `Option`.

Timestamps are abstract naturals supplied by the caller.
The row's `timestamp` (the column default) and the `timestamp` in the 201 reply (a JavaScript `new Date()`) are separate parameters, because the source does not tie them together.
The outcomes of things outside the model are parameters of the handlers:
- a failing insert, with its error code;
- a failing list query;
- a failing update or follow-up select;
- what the e-mail notification does;
- the reply the browser receives.

Two behaviours of the code that the model keeps:

- Fields are not trimmed. Only the empty string counts as missing, so a whitespace-only name passes (`backend/server.js:95`, `src/components/Contact.js:38`).
- The e-mail notification is awaited inside the POST handler's `try` (`backend/server.js:133`).
  Building the transport (`backend/server.js:250`) is outside the notifier's own `try`/`catch`.
  A throw there reaches the handler's catch and becomes a 500 after the row is already stored.
  `Relay.Threw` models this, and `ContactsTable.Create` states it.
  nodemailer's factory is named `createTransport`, so with mail credentials set this call can be expected to throw.
  Only a failure of `sendMail` itself is swallowed (`Relay.SendFailed`).

## Model

| member | source | states |
|---|---|---|
| `EmailPattern.MatchesIffValid` | backend/server.js:103-104 | The pattern as written accepts a string exactly when it has no whitespace, a sole `@` with at least one character before it, and a `.` in the domain with text on both sides (the same pattern is at src/components/Contact.js:77). |
| `EmailPattern.AcceptedSamples` | backend/server.js:103 | `bob@example.com` and `a@b..c` are accepted. |
| `EmailPattern.RejectedSamples` | backend/server.js:103 | `bob@example`, `a@.c`, `a@b.`, `a@@b.c` and `a b@c.d` are rejected. |
| `ContactRecord.SetReadWhere` | backend/server.js:214-220 | The update keeps the list's length; each row with the id becomes read and every other row is unchanged. |
| `ContactRecord.SetReadWhereChangesOnlyIsRead` | backend/server.js:214-220 | The ids keep their order; no field other than `is_read` changes; `is_read` ends true exactly on rows that were read or carry the id. |
| `ContactRecord.SetReadWhereIdempotent` | backend/server.js:214-220 | Marking the same id read twice gives the same rows as marking it once. |
| `ContactRecord.SetReadWhereUniqueId` | backend/server.js:52 | With unique ids (the primary key), the update rewrites exactly the one row carrying the id. |
| `ContactRecord.SetReadWhereMultiset` | backend/server.js:214-220 | Two lists holding the same rows in any order still hold the same rows after both apply the update. |
| `ContactServer.ErrorReply` | backend/server.js:145-169 | Every caught error is a 500. `ECONNREFUSED`, `ER_ACCESS_DENIED_ERROR` and `ER_BAD_DB_ERROR` each get their own message. Every other code gets the generic one. |
| `ContactServer.ErrorRepliesDistinct` | backend/server.js:149-164 | Two different recognised codes never give the same reply. |
| `ContactServer.InsertNewestFirst` | backend/server.js:183-187 | Adding a row to a newest-first list keeps it newest first and adds exactly that row. A row no older than all others goes to the front. |
| `ContactServer.ContactsTable.constructor` | backend/server.js:50-60 | The table starts empty with the counter at 1, and ids are positive, below the counter and increasing. |
| `ContactServer.ContactsTable.Create` | backend/server.js:82-143 | The checks run in a fixed order: disconnected gives 500, then a missing field gives 400 "All fields are required", then a malformed e-mail gives 400. Each rejection leaves the table unchanged. A failed insert is mapped by `ErrorReply` and changes nothing. Otherwise exactly one row is appended: a fresh id above every existing id, the submitted fields, `is_read` false, earlier rows untouched. The reply is then 201 with the text "Message sent successfully! I'll get back to you soon." and that id, unless the notification threw. |
| `ContactServer.ContactsTable.List` | backend/server.js:174-201 | When disconnected or failing, the reply is a 500 with the source's messages. Otherwise the reply is a permutation of all rows with timestamps non-increasing. It is the table reversed when each row is younger than those stored before it. The table is not changed. |
| `ContactServer.ContactsTable.FindRow` | backend/server.js:217 | Returns the position of a row with the id, or -1 exactly when no row has it. |
| `ContactServer.ContactsTable.MarkRead` | backend/server.js:205-244 | When disconnected or the update fails, the reply is a 500 and nothing changes. An unknown id gives 404 "Message not found" and nothing changes. Otherwise the rows become `SetReadWhere` of the old rows and the reply is the old row with `is_read` true (a 500 if the follow-up select fails). |
| `ContactServer.MarkReadTwice` | backend/server.js:214-236 | On any valid, connected table holding a row with the id, a second run of the handler leaves the rows as the first run did (`SetReadWhere` of the original rows) and returns the same reply, the row with `is_read` true. |
| `ContactForm.WithField` | src/components/Contact.js:26-31 | The named field takes the new value and the other three keep theirs. |
| `ContactForm.Precheck` | src/components/Contact.js:38-48 | "Please fill in all fields" exactly when some field is empty. Otherwise "Please enter a valid email address" when the e-mail fails the pattern. The form passes exactly when the server would admit it (src/components/Contact.js:76-79 vs backend/server.js:95-109). |
| `ContactForm.AnswerNotice` | src/components/Contact.js:62-70 | The notice is a success exactly when the server reported success, and then shows the server's message. A failure reply shows the server's message, or "Failed to send message" when it sent none. A network error shows "Network error. Please check your connection and try again." A failure notice is never empty. |
| `ContactForm.ContactFormState.constructor` | src/components/Contact.js:16-24 | The form starts with four empty fields, no notification and not submitting. |
| `ContactForm.ContactFormState.InputChange` | src/components/Contact.js:26-31 | Only the form data changes, and it becomes `WithField` of the old form. |
| `ContactForm.ContactFormState.Submit` | src/components/Contact.js:33-74 | A form failing a check is never posted, keeps its fields and shows that check's notice. A passing form is posted as it is and shows the reply's notice. It is cleared exactly when the server reported success. Every path ends with `isSubmitting` false. |
| `AdminPanel.MarkAsRead` | src/components/AdminPanel.js:38-41 | Without success the list is unchanged. Otherwise it has the same length and the same ids in order; entries with the id are read; nothing but `is_read` changes. |
| `AdminPanel.MarkAsReadTwice` | src/components/AdminPanel.js:39-41 | Applying the update twice with the same id gives the same list as applying it once. |
| `AdminPanel.LocalListStaysInStep` | src/components/AdminPanel.js:38-41 | A local list holding the table's rows in any order still holds them, as updated on the server, after the local update. |

## Left out

- Rate limiter (`backend/server.js:15-20`): this is the `express-rate-limit` library, whose window and per-address store are not in the code. Only its settings are recorded, as `RateWindowMs` and `RateMaxPerWindow`.
- E-mail notification (`backend/server.js:247-280`): the mail transport, the message text and the credentials are I/O. They are reduced to the `Relay` outcome that `Create` is given.
- Connecting to the database and creating the table (`backend/server.js:23-71`), and the root status endpoint (`backend/server.js:74-79`): I/O. Whether the connection was made is the `connected` flag, fixed when the table object is built: the source connects once and never reconnects, and the model begins after that attempt has settled (next line).
- Connection timing and an existing table: `connectDB()` is started without waiting (`backend/server.js:71`) while the server already accepts requests (`backend/server.js:299`), so `db` goes from unset to set while requests arrive, and `CREATE TABLE IF NOT EXISTS` (`backend/server.js:51`) may find a table that already holds rows and a counter above 1. The model starts once the connection attempt has settled, and its constructor builds a newly created, empty table. Every handler requires only `Valid()`, so its contract also covers a table that already holds rows.
- Column lengths (`VARCHAR(255)`, `VARCHAR(500)`): not modelled. An insert MySQL refuses is an `insertError`.
- AUTO_INCREMENT gaps: the model leaves the counter unchanged when an insert fails, although InnoDB may consume an id then. Ids stay unique and increasing either way.
- Order of rows with equal timestamps: MySQL `TIMESTAMP` has one-second resolution, so ties can happen, and `ORDER BY timestamp DESC` leaves their order open. The model picks one order; `List` promises only the order of timestamps and the set of rows.
- `ContactServer.ContactsTable.MarkRead`: the 404 test is `affectedRows === 0`. The model assumes the MySQL driver's default found-rows flag, under which `affectedRows` counts matched rows, so marking an already-read row succeeds.
- JSON parsing and type coercion: body fields are modelled as strings, where the empty string stands for a missing or empty field. The `:id` path parameter is modelled as an integer; a non-numeric `:id` is not modelled.
- Express middleware (CORS, JSON body parser, error handler, 404 route; `backend/server.js:11-12,283-297`): framework glue.
- Requests and timers on the client: `fetch`, `response.json()`, the five-second expiry of a notification (`src/components/Contact.js:52-60,83`) and the admin panel's initial load with its loading and error states (`src/components/AdminPanel.js:14-29`). They are network and timer I/O. The outcome of the POST is the `Answer` given to `Submit`, and the outcome of the PUT is the `success` flag given to `MarkAsRead`.
- `ContactForm.ContactFormState.Submit`: does not state that `isSubmitting` is true while the request is in flight. The method is one atomic step, so only its value at the end is stated.
- `AdminPanel.MarkAsRead`: the callback maps over the `messages` it captured when it was created. Interleaved updates from other callbacks are not modelled.
- Presentational components (`Hero.js`, `Navbar.js`, `Skills.js`, `Projects.js`, `About.js`, `Footer.js`): static content and animation, with no logic to verify.
