# Note store of the ForsAI chat bot, in Dafny

The bot keeps a small per-user note store. It is a JSON document
`{"users": {"<id>": {"notes": ["...", ...]}}}` that every command loads, changes
in place and, for `note` and a successful `delnote`, writes back. This project models
that store and the state logic of the three commands that use it:

- `load_memory` with its repair. A missing file, or a document whose `"users"` value
  is missing or is not an object, becomes `{"users": {}}` and is written back.
- `get_user_notes`. It turns the numeric user id into text with `str(...)`. It creates
  the `"users"` table and an empty record when they are missing, and yields that
  user's list.
- `note <text>` appends to the caller's list and saves.
- `notes` replies with a header and one numbered line per note. A user with no notes
  gets a fixed empty-state message instead.
- `delnote <index>` takes a 1-based index. It reports "nothing to delete" for an empty
  list and "does not exist" for an index outside `1..len`. Otherwise it removes that
  note, saves and names the removed note.

Layout:

- `decimal.dfy`, module `Decimal`: Python's `str()` on an `int`. It comes with a
  reading-back function, a round-trip lemma and the injectivity of the key mapping:
  two different user ids never share a record.
- `bot.dfy`, module `Bot`:
  - The document's `"users"` value is `UsersField = Missing | NotAMap | Table(map<string, seq<string>>)`.
  - The pure specification functions are `Repaired`, `WithRecord`, `DeleteOutcome`,
    `Remaining`, `Listing` and `DeletionReply`, with lemmas about them.
  - The class `Document` is the in-memory `data` dict, which the handlers change in
    place. Its field `saved` records every state the code writes to the memory file,
    so the contracts show which paths persist and which do not.
  - `FreshStoreSession` walks through the scenario "fresh store, `note "buy milk"`,
    `notes`, `delnote 1`, `delnote 1`", with each step's outcome proved by assertions.
    Each command in it loads what the previous one saved.

Python aliasing: `get_user_notes` returns a live reference into `data`, and the
handlers then call `notes.append` / `notes.pop` on it. In the model those become
direct updates of `users.records[key]`.

Two details of the code:

- `notes` never saves, but `get_user_notes` still installs an empty record in memory
  for an unknown user. `Document.ListNotes` states both facts.
- `delnote` on an unknown user also installs the record in memory and does not save.

## Model

| member | source | states |
|---|---|---|
| `Decimal.NatToString` | bot.py:43 | `str(n)` of a non-negative int is a non-empty string of decimal digits. It starts with '0' exactly when n is 0, and then it is "0" (no leading zeros). |
| `Decimal.IntToString` | bot.py:43 | `str(n)` starts with '-' exactly for negative n, followed by the digits of -n. Otherwise it is the digits of n. |
| `Decimal.NatToStringRoundTrip` | bot.py:43 | Reading the digits of `str(n)` back as a decimal number gives n. |
| `Decimal.IntToStringInjective` | bot.py:43 | Equal `str` texts mean equal ids, so distinct users always get distinct keys in the user table. |
| `Bot.Repaired` | bot.py:21-36 | After loading, `"users"` is always a table. A file whose `"users"` is already a table is returned unchanged. A missing file, or a missing or non-object `"users"`, gives the empty table. |
| `Bot.RepairedIsStable` | bot.py:31-36 | A document produced by loading passes the validity check: loading it again writes nothing and returns the same document. |
| `Bot.LoadWrites` | bot.py:22-34 | True exactly when the memory file is missing (bot.py:22) or its `"users"` value is missing or not an object (bot.py:32). These are the two paths that write `{"users": {}}`. Its partners are `Repaired`, `Document.Load` and `RepairedIsStable`. |
| `Bot.FileAfter` | bot.py:24-25 | The memory file after a command. Each write through `open(..., "w")` replaces the whole content (bot.py:24-25, 39-40), so the last document written wins, and a command that writes nothing leaves the file as it was. `FreshStoreSession` uses it to chain commands. |
| `Bot.Document.Load` | bot.py:21-36 | The loaded document is `Repaired(stored)`. The file is written (with `{"users": {}}`) exactly when it was absent or had to be repaired. |
| `Bot.Document.Save` | bot.py:38-40 | Saving records the whole current document as written and changes nothing in it. |
| `Bot.WithRecord` | bot.py:42-51 | After get-or-create, the key has a record holding the user's existing notes, or `[]` for an unknown user. Every existing record is kept unchanged, and no key other than this user's is added. A known user leaves the table exactly as it was. An unknown user adds exactly one key. |
| `Bot.WithRecordIdempotent` | bot.py:42-51 | Get-or-create twice equals get-or-create once, and the second call finds the same notes. |
| `Bot.Document.GetUserNotes` | bot.py:42-51 | A non-object `"users"` raises TypeError and changes nothing. Otherwise the new table is `WithRecord(old users, str(id))` (created first if `"users"` was missing), and the result is that user's old notes. |
| `Bot.Document.AddNote` | bot.py:80-88 | The caller's list becomes its old notes followed by `text`. Every other user's record is unchanged. The new document is saved once, and the reply is the fixed acknowledgement. |
| `Bot.DeleteOutcome` | bot.py:110-118 | "Nothing to delete" exactly for an empty list. "Does not exist" exactly for a non-empty list with index < 1 or index > len. Otherwise the result is Removed with the note at position index-1. |
| `Bot.Remaining` | bot.py:114-118 | A valid index leaves a list one shorter: the notes before the index stay in place and the ones after it move down by one. Any other index leaves the list unchanged. |
| `Bot.DeleteThenReinsert` | bot.py:118 | Putting the removed note back at its position restores the original list. The multiset of notes loses exactly the removed note. |
| `Bot.DeletionReplyInjective` | bot.py:110-121 | The three `delnote` replies are pairwise distinct, and the "removed" reply determines which note was removed. |
| `Bot.Document.DelNote` | bot.py:105-121 | The outcome is `DeleteOutcome(old notes, index)`. The caller's list becomes `Remaining(old notes, index)` and other users are unchanged. The document is saved only when a note was removed, and the reply matches the outcome. |
| `Bot.NumberedLinesAreLines` | bot.py:99-101 | The listing body concatenates, in stored order, one line `"{i}. {note}\n"` per note, for i = 1..len. |
| `Bot.ListingShape` | bot.py:95-103 | An empty list yields exactly the empty-state message. A non-empty list yields the header followed by one numbered line per note, and that is never the empty-state message. |
| `Bot.ListingOfOneNote` | bot.py:99-101 | A single note is listed as `"1. {note}\n"` under the header. |
| `Bot.RenderNotes` | bot.py:95-103 | The message the handler's `enumerate` loop builds (or its early empty-state reply) equals `Listing(notes)`. |
| `Bot.NotesOf` | bot.py:48-51 | The notes stored for a key, or none for a user without a record. Its partners are `WithRecord`, whose record for the key equals it, and `WithRecordIdempotent`. |
| `Bot.DeletionReply` | bot.py:110-121 | The `delnote` reply for each outcome: the fixed texts at bot.py:111 and 115, and `Removed note: *{removed}*` at bot.py:121. Its partner `DeletionReplyInjective` proves the three replies distinct and the removed reply determines the note. |
| `Bot.NoteLine` | bot.py:100-101 | The line `"{i}. {note}\n"`, with `i` written by `str`. `ListingOfOneNote` and `NumberedLinesAreLines` state what it contributes to the listing. |
| `Bot.NumberedLines` | bot.py:99-101 | The text the `enumerate` loop appends after the header. Its partner `NumberedLinesAreLines` proves it is one `NoteLine` per note, numbered 1..len in stored order. `RenderNotes`' loop invariant is stated with it. |
| `Bot.Listing` | bot.py:95-103 | The `notes` reply. Its partners: `ListingShape` (the empty-state text exactly for no notes, otherwise the header and one numbered line per note), `ListingOfOneNote`, and `RenderNotes`, whose loop is proved equal to it. |
| `Bot.FreshStoreSession` | bot.py:80-121 | Asserts the whole flow on a fresh store. `note "buy milk"` by user 42 saves `{"42": ["buy milk"]}`. `notes` replies with the header and `1. buy milk`. `delnote 1` removes `buy milk` and saves `{"42": []}`. A second `delnote 1` replies "There is nothing to delete.". |
| `Bot.Document.ListNotes` | bot.py:90-103 | The reply is `Listing` of the caller's notes. The only change is the in-memory get-or-create record, and nothing is saved. |

## Left out

- Discord tie-in: the async handlers, `ctx.send`, `@bot.command` routing, the `!` prefix and
  converting the arguments (`index: int`, `*, text: str`). This is a foreign framework with
  async I/O. Replies are modelled as the strings the handlers would send.
- The `DISCORD_TOKEN` check at startup, and `bot.run`: configuration and process I/O.
- The `ping` command and the `on_ready` log line: fixed text, with no state.
- File persistence: `os.path.exists`, `open`, `json.load` and `json.dump`. The file's
  content is a parameter of `Document.Load` (`NoFile` or the parsed `"users"` value). A
  write is an entry in `Document.saved`. The JSON text, its 4-space indentation and the
  save/load round trip of the serialiser are not modelled. A memory file that does not
  decode (empty or truncated, for example after a failed write, since `open(..., "w")`
  truncates it before `json.dump`) makes `json.load` raise. That exception propagates out
  of `load_memory` before the repair check, and the model does not represent it. A write
  at bot.py:24-25 or 39-40 can also fail and raise. The exception then propagates from
  `load_memory` or from the handler, after the in-memory change. `Document.Save` has no
  failing case.
- JSON shapes other than `{"users": {id: {"notes": [strings]}}}`:
  - a top-level value that is not an object;
  - other top-level keys, which the code keeps on a valid document and drops on repair;
  - user records that are not objects, or that have no `"notes"` key: the code raises
    at bot.py:51;
  - `"notes"` values that are not lists of strings. The handlers then do whatever
    Python's truthiness, `len`, iteration, `append` and `pop` do with that value. For
    example, `null` gives the empty-state reply and "nothing to delete", a string is
    listed one character per line, and `note` raises on any value that is not a list.
- Concurrency across overlapping commands (last writer wins on the whole file): this
  depends on the host's scheduling.
- The rolling conversation window and the completion client: that code is not part of
  this model.
