/**
 * The per-user note store of the bot: an in-memory document
 * `{"users": {id: {"notes": [...]}}}`, the repair applied when it is loaded,
 * get-or-create of a user's note list, and the state logic of the `note`,
 * `notes` and `delnote` commands.
 */
module Bot {
  import opened Decimal

  // ---------------------------------------------------------------------------
  // Data model
  // ---------------------------------------------------------------------------

  /**
   * What the document holds under its "users" key. `Table` maps a user id, as
   * text, to that user's ordered notes (the record `{"notes": [...]}`).
   */
  datatype UsersField =
    | Missing                                    // no "users" key
    | NotAMap                                    // a "users" value that is not a JSON object
    | Table(records: map<string, seq<string>>)

  /** What `load_memory` finds: no memory file, or a file whose document has this "users" value. */
  datatype Stored = NoFile | File(users: UsersField)

  /** Outcome of `get_user_notes`: the user's list, or the TypeError a non-object "users" raises. */
  datatype Lookup = Found(notes: seq<string>) | TypeError

  /** Outcome of the `delnote` command. */
  datatype Deletion = NothingToDelete | BadIndex | Removed(text: string)

  // ---------------------------------------------------------------------------
  // Loading (the repair on load)
  // ---------------------------------------------------------------------------

  /** Load rewrites the file: when it is absent, and when its "users" value is missing or not an object. */
  predicate LoadWrites(stored: Stored) {
    !(stored.File? && stored.users.Table?)
  }

  /** The "users" value `load_memory` returns. */
  function Repaired(stored: Stored): (r: UsersField)
    ensures r.Table?
    ensures !LoadWrites(stored) ==> r == stored.users
    ensures LoadWrites(stored) ==> r == Table(map[])
  {
    if LoadWrites(stored) then Table(map[]) else stored.users
  }

  /** Loading what a load wrote back gives the same document and writes nothing. */
  lemma RepairedIsStable(stored: Stored)
    ensures !LoadWrites(File(Repaired(stored)))
    ensures Repaired(File(Repaired(stored))) == Repaired(stored)
  {
  }

  // ---------------------------------------------------------------------------
  // Get-or-create, as a function of the "users" value
  // ---------------------------------------------------------------------------

  /** The notes stored under `key`; a user without a record has none. */
  function NotesOf(u: UsersField, key: string): seq<string> {
    if u.Table? && key in u.records then u.records[key] else []
  }

  /** The user table after `get_user_notes` for `key`: the table (created if missing) with a record for `key`. */
  function WithRecord(u: UsersField, key: string): (r: map<string, seq<string>>)
    requires !u.NotAMap?
    ensures key in r && r[key] == NotesOf(u, key)
    ensures u.Table? ==> forall k :: k in u.records ==> k in r && r[k] == u.records[k]
    ensures forall k :: k in r && k != key ==> u.Table? && k in u.records
    ensures u.Table? && key in u.records ==> r == u.records
    ensures !(u.Table? && key in u.records) ==> r[key] == [] && r.Keys == (if u.Table? then u.records.Keys else {}) + {key}
  {
    var table := if u.Table? then u.records else map[];
    if key in table then table else table[key := []]
  }

  /** Get-or-create is idempotent: a second call changes nothing and finds the same notes. */
  lemma WithRecordIdempotent(u: UsersField, key: string)
    requires !u.NotAMap?
    ensures WithRecord(Table(WithRecord(u, key)), key) == WithRecord(u, key)
    ensures NotesOf(Table(WithRecord(u, key)), key) == NotesOf(u, key)
  {
  }

  // ---------------------------------------------------------------------------
  // Deleting a note by its 1-based number
  // ---------------------------------------------------------------------------

  /** What `delnote index` reports for a user whose notes are `notes`. */
  function DeleteOutcome(notes: seq<string>, index: int): (r: Deletion)
    ensures r == NothingToDelete <==> notes == []
    ensures r == BadIndex <==> notes != [] && (index < 1 || index > |notes|)
    ensures r.Removed? <==> 1 <= index <= |notes|
    ensures r.Removed? ==> r.text == notes[index - 1]
  {
    if notes == [] then NothingToDelete
    else if index < 1 || index > |notes| then BadIndex
    else Removed(notes[index - 1])
  }

  /** The notes left after `delnote index`: one fewer on success, the same list otherwise. */
  function Remaining(notes: seq<string>, index: int): (r: seq<string>)
    ensures !(1 <= index <= |notes|) ==> r == notes
    ensures 1 <= index <= |notes| ==> |r| == |notes| - 1
    ensures 1 <= index <= |notes| ==> forall j :: 0 <= j < index - 1 ==> r[j] == notes[j]
    ensures 1 <= index <= |notes| ==> forall j :: index - 1 <= j < |r| ==> r[j] == notes[j + 1]
  {
    if 1 <= index <= |notes| then notes[..index - 1] + notes[index..] else notes
  }

  /** Putting the removed note back at its number restores the list; nothing else was lost. */
  lemma DeleteThenReinsert(notes: seq<string>, index: int)
    requires DeleteOutcome(notes, index).Removed?
    ensures var rest := Remaining(notes, index);
      rest[..index - 1] + [DeleteOutcome(notes, index).text] + rest[index - 1..] == notes
    ensures multiset(Remaining(notes, index)) + multiset{notes[index - 1]} == multiset(notes)
  {
  }

  // ---------------------------------------------------------------------------
  // Replies
  // ---------------------------------------------------------------------------

  const NotedReply := "Noted. This one is *your* responsibility."
  // Written as two literals: the verifier does not look inside a single literal this long.
  const EmptyNotesReply := "I have nothing recorded for you." + " Enjoy the silence."
  const NotesHeader := "\U{1F4D6} **Your Notes**\n"

  /** The message `delnote` sends for each outcome. */
  function DeletionReply(d: Deletion): string {
    match d
    case NothingToDelete => "There is nothing to delete."
    case BadIndex => "That note number does not exist. Try again."
    case Removed(t) => "Removed note: *" + t + "*"
  }

  /** The reply tells the user exactly what happened, including which note went. */
  lemma DeletionReplyInjective(a: Deletion, b: Deletion)
    requires DeletionReply(a) == DeletionReply(b)
    ensures a == b
  {
    var s := DeletionReply(a);
    var prefix := "Removed note: *";
    if a.Removed? {
      assert s[..|prefix|] == prefix;
      assert s[2] == 'm';
    } else {
      assert s[2] != 'm';
    }
    if b.Removed? {
      assert s[..|prefix|] == prefix;
      assert s[2] == 'm';
    } else {
      assert s[2] != 'm';
    }
    if a.Removed? && b.Removed? {
      assert a.text == s[|prefix|..|s| - 1] == b.text;
    } else if !a.Removed? && !b.Removed? {
      assert a.NothingToDelete? <==> s[2] == 'e';
    }
  }

  // ---------------------------------------------------------------------------
  // The numbered listing of the `notes` command
  // ---------------------------------------------------------------------------

  /** Line `i` of the listing: `"{i}. {note}\n"`. */
  function NoteLine(i: nat, note: string): string {
    NatToString(i) + ". " + note + "\n"
  }

  /** The lines for `notes`, numbered from 1, in stored order. */
  function NumberedLines(notes: seq<string>): string {
    if notes == [] then ""
    else NumberedLines(notes[..|notes| - 1]) + NoteLine(|notes|, notes[|notes| - 1])
  }

  /** The reply of the `notes` command for a user whose notes are `notes`. */
  function Listing(notes: seq<string>): string {
    if notes == [] then EmptyNotesReply else NotesHeader + NumberedLines(notes)
  }

  function Concat(parts: seq<string>): string {
    if parts == [] then "" else parts[0] + Concat(parts[1..])
  }

  /** One line per note: line `i` (0-based) carries number `i + 1` and note `i`. */
  function Lines(notes: seq<string>): seq<string> {
    seq(|notes|, i requires 0 <= i < |notes| => NoteLine(i + 1, notes[i]))
  }

  lemma {:induction false} ConcatSnoc(parts: seq<string>, last: string)
    ensures Concat(parts + [last]) == Concat(parts) + last
    decreases |parts|
  {
    if parts != [] {
      assert (parts + [last])[1..] == parts[1..] + [last];
      ConcatSnoc(parts[1..], last);
    }
  }

  /** The listing's body is exactly the per-note lines, in stored order. */
  lemma {:induction false} NumberedLinesAreLines(notes: seq<string>)
    ensures NumberedLines(notes) == Concat(Lines(notes))
    decreases |notes|
  {
    if notes != [] {
      var n := |notes|;
      var init := notes[..n - 1];
      NumberedLinesAreLines(init);
      assert Lines(notes) == Lines(init) + [NoteLine(n, notes[n - 1])];
      ConcatSnoc(Lines(init), NoteLine(n, notes[n - 1]));
    }
  }

  /** The `notes` reply: the empty-state message exactly when there are no notes, else a header and one line per note. */
  lemma ListingShape(notes: seq<string>)
    ensures notes == [] ==> Listing(notes) == EmptyNotesReply
    ensures notes != [] ==> Listing(notes) == NotesHeader + Concat(Lines(notes))
    ensures notes != [] ==> Listing(notes) != EmptyNotesReply
  {
    if notes != [] {
      NumberedLinesAreLines(notes);
      assert Listing(notes)[0] == '\U{1F4D6}';
      assert EmptyNotesReply[0] == 'I';
    }
  }

  /** A single note is listed as note number 1 under the header. */
  lemma ListingOfOneNote(note: string)
    ensures Listing([note]) == NotesHeader + "1. " + note + "\n"
  {
    assert [note][..0] == [];
    assert NatToString(1) == "1";
    assert NumberedLines([note]) == "1. " + note + "\n";
  }

  /** The reply of the `notes` command, built line by line as the handler's loop does. */
  method RenderNotes(notes: seq<string>) returns (message: string)
    ensures message == Listing(notes)
  {
    if |notes| == 0 {
      return EmptyNotesReply;
    }
    message := NotesHeader;
    for i := 0 to |notes|
      invariant message == NotesHeader + NumberedLines(notes[..i])
    {
      assert notes[..i + 1][..i] == notes[..i];
      message := message + NoteLine(i + 1, notes[i]);
    }
    assert notes[..|notes|] == notes;
  }

  // ---------------------------------------------------------------------------
  // The document, changed in place by the command handlers
  // ---------------------------------------------------------------------------

  class Document {
    /** The document's "users" value. */
    var users: UsersField
    /** Every "users" value written to the memory file while handling this document, oldest first. */
    var saved: seq<UsersField>

    /** The shape `load_memory` guarantees and the handlers rely on. */
    ghost predicate Valid()
      reads this
    {
      users.Table?
    }

    /** `load_memory`, with the file's content (or its absence) given as `stored`. */
    constructor Load(stored: Stored)
      ensures Valid()
      ensures users == Repaired(stored)
      ensures saved == if LoadWrites(stored) then [users] else []
    {
      if LoadWrites(stored) {
        users := Table(map[]);
        saved := [users];
      } else {
        users := stored.users;
        saved := [];
      }
    }

    /** `save_memory`: writes the whole document; the document itself is unchanged. */
    method Save()
      modifies this`saved
      ensures saved == old(saved) + [users]
    {
      saved := saved + [users];
    }

    /**
     * `get_user_notes`: installs a user table and an empty record when missing
     * and returns the user's notes. A non-object "users" value raises before
     * anything changes.
     */
    method GetUserNotes(userId: int) returns (r: Lookup)
      modifies this`users
      ensures old(users).NotAMap? ==> r == TypeError && users == old(users)
      ensures !old(users).NotAMap? ==>
        && users == Table(WithRecord(old(users), IntToString(userId)))
        && r == Found(NotesOf(old(users), IntToString(userId)))
    {
      var key := IntToString(userId);
      if users.Missing? {
        users := Table(map[]);
      }
      if users.NotAMap? {
        return TypeError;
      }
      if key !in users.records {
        users := Table(users.records[key := []]);
      }
      r := Found(users.records[key]);
    }

    /** The `note` command: append `text` to the caller's notes and save. */
    method AddNote(userId: int, text: string) returns (reply: string)
      requires Valid()
      modifies this
      ensures Valid()
      ensures var key := IntToString(userId);
        users.records == old(users.records)[key := NotesOf(old(users), key) + [text]]
      ensures saved == old(saved) + [users]
      ensures reply == NotedReply
    {
      var key := IntToString(userId);
      var found := GetUserNotes(userId);
      users := Table(users.records[key := found.notes + [text]]);
      Save();
      reply := NotedReply;
    }

    /** The `notes` command: the numbered listing; the record it installs is never saved. */
    method ListNotes(userId: int) returns (reply: string)
      requires Valid()
      modifies this
      ensures Valid()
      ensures reply == Listing(NotesOf(old(users), IntToString(userId)))
      ensures users.records == WithRecord(old(users), IntToString(userId))
      ensures saved == old(saved)
    {
      var found := GetUserNotes(userId);
      reply := RenderNotes(found.notes);
    }

    /** The `delnote` command: remove note number `index` (1-based) and save, or report why not. */
    method DelNote(userId: int, index: int) returns (outcome: Deletion, reply: string)
      requires Valid()
      modifies this
      ensures Valid()
      ensures var key := IntToString(userId);
        var before := NotesOf(old(users), key);
        && outcome == DeleteOutcome(before, index)
        && users.records == old(users.records)[key := Remaining(before, index)]
      ensures saved == if outcome.Removed? then old(saved) + [users] else old(saved)
      ensures reply == DeletionReply(outcome)
    {
      var key := IntToString(userId);
      var found := GetUserNotes(userId);
      var notes := found.notes;
      if |notes| == 0 {
        outcome := NothingToDelete;
      } else if index < 1 || index > |notes| {
        outcome := BadIndex;
      } else {
        outcome := Removed(notes[index - 1]);
        users := Table(users.records[key := notes[..index - 1] + notes[index..]]);
        Save();
      }
      reply := DeletionReply(outcome);
    }
  }

  /**
   * The memory file after a command. Every write replaces the whole file, so the
   * last document written wins; a command that writes nothing leaves it as it was.
   */
  function FileAfter(before: Stored, saved: seq<UsersField>): Stored {
    if saved == [] then before else File(saved[|saved| - 1])
  }

  /**
   * A fresh store, then `note "buy milk"`, `notes`, `delnote 1` and `delnote 1`
   * by user 42; every command loads what the previous ones saved.
   */
  method FreshStoreSession() {
    var file := NoFile;
    var doc := new Document.Load(file);
    var reply := doc.AddNote(42, "buy milk");
    assert IntToString(42) == "42";
    assert [] + ["buy milk"] == ["buy milk"];
    assert doc.users.records == map["42" := ["buy milk"]];
    file := FileAfter(file, doc.saved);
    assert file == File(Table(map["42" := ["buy milk"]]));

    doc := new Document.Load(file);
    reply := doc.ListNotes(42);
    ListingOfOneNote("buy milk");
    assert reply == NotesHeader + "1. buy milk\n";
    file := FileAfter(file, doc.saved);

    doc := new Document.Load(file);
    var outcome;
    outcome, reply := doc.DelNote(42, 1);
    assert outcome == Removed("buy milk");
    file := FileAfter(file, doc.saved);
    assert file == File(Table(map["42" := []]));

    doc := new Document.Load(file);
    outcome, reply := doc.DelNote(42, 1);
    assert outcome == NothingToDelete && reply == "There is nothing to delete.";
  }
}
