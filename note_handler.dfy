/**
 * The note-creation endpoint (server/src/handler/note.ts): validate the
 * request body, check that the caller is the configured local user, build
 * one note and insert it. The fresh ULID and the clock reading are inputs.
 */
module NoteHandler {
  import opened Wrappers
  import opened JsonValue
  import opened NoteRepository

  /** The server configuration the handler reads. */
  datatype Config = Config(domain: string, userId: string, userName: string)

  /** Exceptions that escape the handler instead of setting a status. */
  datatype Escape =
    | AuthStateMissing   // `ctx.state.auth` is unset, so reading `.uid` throws
    | InsertRejected     // the repository's insert violated a table constraint

  /** What one call of the handler ends in. */
  datatype CreateNoteOutcome =
    | Responded(status: int)   // `ctx.status = 201` or `ctx.throw(400 | 401, ...)`
    | Raised(escape: Escape)

  /**
   * The `{ content: string }` schema: the body must be an object whose
   * `content` is a string; other keys are ignored.
   */
  function ParseCreateNoteRequest(body: Json): (content: Option<string>)
    ensures content.Some? ==> body.JObject? && "content" in body.fields && body.fields["content"] == JString(content.value)
    ensures content.None? ==> !body.JObject? || "content" !in body.fields || !body.fields["content"].JString?
  {
    match body
    case JObject(fields) =>
      if "content" in fields && fields["content"].JString? then Some(fields["content"].s) else None
    case _ => None
  }

  /** The request body a client sends to create a note with `content`. */
  function CreateNoteRequest(content: string): Json {
    JObject(map["content" := JString(content)])
  }

  /** A client's request body is accepted and yields the content it carried. */
  lemma RequestRoundTrip(content: string)
    ensures ParseCreateNoteRequest(CreateNoteRequest(content)) == Some(content)
  {
  }

  /** Keys other than `content` do not affect validation. */
  lemma ExtraKeysIgnored(fields: map<string, Json>, key: string, value: Json)
    requires key != "content"
    ensures ParseCreateNoteRequest(JObject(fields[key := value])) == ParseCreateNoteRequest(JObject(fields))
  {
    assert "content" in fields[key := value] <==> "content" in fields;
  }

  /** Only a JSON object can be a valid request body. */
  lemma OnlyObjectsAccepted(body: Json)
    requires !body.JObject?
    ensures ParseCreateNoteRequest(body) == None
  {
  }

  /**
   * The note the handler builds for `content`, given the fresh id and the
   * clock. It belongs to the local user's actor and has no federated id, so
   * no row can hold its `federatedId` and only a repeated id can make its
   * insert fail.
   */
  function NewNote(config: Config, id: string, content: string, now: int): (note: Note)
    ensures note.id == id && note.content == content && note.createdAt == now
    ensures note.userId == "https://" + config.domain + "/u/" + config.userName
    ensures forall rows: Rows :: !FederatedIdTaken(rows, note.federatedId, id)
  {
    Note(id, "https://" + config.domain + "/u/" + config.userName, content, now, None)
  }

  /**
   * `createNote`: 400 for an invalid body, then 401 for a caller other than
   * the configured user, then one insert and 201.
   */
  method CreateNote(notes: NoteStore, config: Config, body: Json, auth: Option<string>, newId: string, now: int)
    returns (outcome: CreateNoteOutcome)
    requires notes.Valid()
    modifies notes
    ensures notes.Valid()
    ensures ParseCreateNoteRequest(body).None? ==> outcome == Responded(400)
    ensures ParseCreateNoteRequest(body).Some? && auth.None? ==> outcome == Raised(AuthStateMissing)
    ensures ParseCreateNoteRequest(body).Some? && auth.Some? && auth.value != config.userId ==>
      outcome == Responded(401)
    ensures ParseCreateNoteRequest(body).Some? && auth == Some(config.userId) ==>
      outcome == if newId in old(notes.rows) then Raised(InsertRejected) else Responded(201)
    ensures outcome != Responded(201) ==> notes.rows == old(notes.rows)
    ensures outcome == Responded(201) ==>
      var note := NewNote(config, newId, ParseCreateNoteRequest(body).value, now);
      && newId !in old(notes.rows)
      && notes.rows == old(notes.rows)[newId := NoteRow.FromModel(note)]
      && notes.FindById(newId) == Some(note)
      && note.content == ParseCreateNoteRequest(body).value
      && note.userId == "https://" + config.domain + "/u/" + config.userName
      && note.federatedId == None
      && note.createdAt == now
  {
    var content := ParseCreateNoteRequest(body);
    if content.None? {
      return Responded(400);
    }
    if auth.None? {
      return Raised(AuthStateMissing);
    }
    if auth.value != config.userId {
      return Responded(401);
    }
    var note := NewNote(config, newId, content.value, now);
    var ok := notes.Create(note);
    if !ok {
      return Raised(InsertRejected);
    }
    outcome := Responded(201);
  }
}
