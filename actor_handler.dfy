/**
 * Storing a remote actor's profile (server/src/handler/actor.ts,
 * `syncActor`), from the point where the profile has been fetched. The
 * fetch, the URL parser's `hostname` and `JSON.stringify` are inputs.
 */
module ActorHandler {
  import opened Wrappers
  import opened JsonValue

  /**
   * The fields of a fetched actor document that the handler reads:
   * `data.name`, `data.preferredUsername`, `data.url`, `data.inbox`,
   * `data.summary`, `data.publicKey.publicKeyPem` and `data.icon.url`.
   */
  datatype ActorDocument = ActorDocument(
    name: Option<string>,
    preferredUsername: Option<string>,
    url: Option<string>,
    inbox: Option<string>,
    summary: Option<string>,
    publicKeyPem: Option<string>,
    iconUrl: Option<string>)

  /** What the fetch of the actor URL produced: the parsed document, if any, and whether it reported an error. */
  datatype FetchResult = FetchResult(data: Option<Json>, error: bool)

  /** The record handed to the actor repository. */
  datatype ActorRecord = ActorRecord(
    userId: string,
    rawData: string,
    inboxUrl: Option<string>,
    name: string,
    summary: Option<string>,
    url: Option<string>,
    publicKeyPem: Option<string>,
    iconUrl: Option<string>)

  datatype SyncError =
    | Rejected(status: int, message: string)   // `ctx.throw(status, message)`
    | InvalidProfileUrl                        // `new URL(data.url)` throws

  datatype SyncOutcome = Synced | Failed(error: SyncError)

  /** JavaScript truthiness of a JSON value. */
  predicate JsTruthy(v: Json) {
    match v
    case JNull => false
    case JBool(b) => b
    case JNumber(n) => n != 0.0
    case JString(s) => s != ""
    case _ => true
  }

  /** The string under `key` of an object, the only kind of value the model reads at a key. */
  function StringField(v: Json, key: string): Option<string> {
    if v.JObject? && key in v.fields && v.fields[key].JString? then Some(v.fields[key].s) else None
  }

  /** The object under `key` (`data?.publicKey`, `data?.icon`), or `null` when there is none. */
  function ObjectField(v: Json, key: string): Json {
    if v.JObject? && key in v.fields && v.fields[key].JObject? then v.fields[key] else JNull
  }

  /** The keys of the document the handler reads. */
  const ReadKeys: set<string> := {"name", "preferredUsername", "url", "inbox", "summary", "publicKey", "icon"}

  /** The handler's reads of a fetched document. */
  function ReadActorDocument(data: Json): ActorDocument {
    ActorDocument(
      StringField(data, "name"),
      StringField(data, "preferredUsername"),
      StringField(data, "url"),
      StringField(data, "inbox"),
      StringField(data, "summary"),
      StringField(ObjectField(data, "publicKey"), "publicKeyPem"),
      StringField(ObjectField(data, "icon"), "url"))
  }

  /** Keys the handler does not read do not change what it reads. */
  lemma UnreadKeysIgnored(fields: map<string, Json>, key: string, value: Json)
    requires key !in ReadKeys
    ensures ReadActorDocument(JObject(fields[key := value])) == ReadActorDocument(JObject(fields))
  {
    var g := fields[key := value];
    assert forall k :: k in ReadKeys ==> (k in g <==> k in fields) && (k in g ==> g[k] == fields[k]);
  }

  /** JavaScript truthiness of an optional string: present and non-empty. */
  predicate Truthy(s: Option<string>) {
    s.Some? && s.value != ""
  }

  predicate StartsWith(s: string, prefix: string) {
    |prefix| <= |s| && s[..|prefix|] == prefix
  }

  /** `data.name || data.preferredUsername`, with a falsy result reported as `None`. */
  function ActorName(doc: ActorDocument): (name: Option<string>)
    ensures name.Some? <==> Truthy(doc.name) || Truthy(doc.preferredUsername)
    ensures name.Some? ==> name.value != ""
    ensures Truthy(doc.name) ==> name == doc.name
    ensures !Truthy(doc.name) && Truthy(doc.preferredUsername) ==> name == doc.preferredUsername
  {
    if Truthy(doc.name) then doc.name
    else if Truthy(doc.preferredUsername) then doc.preferredUsername
    else None
  }

  /**
   * The stored identifier: the bare name when the requested URL starts
   * with `https://` and the local domain, otherwise `name@host`, where
   * the host comes from the document's own `url` and is empty without one.
   */
  function ActorUserId(domain: string, url: string, name: string, profileUrl: Option<string>,
                       hostname: string -> Option<string>): (r: Result<string, SyncError>)
    ensures StartsWith(url, "https://" + domain) ==> r == Success(name)
    ensures !StartsWith(url, "https://" + domain) && !Truthy(profileUrl) ==> r == Success(name + "@")
    ensures !StartsWith(url, "https://" + domain) && Truthy(profileUrl) ==>
      match hostname(profileUrl.value)
      case None => r == Failure(InvalidProfileUrl)
      case Some(host) => r == Success(name + "@" + host)
  {
    if StartsWith(url, "https://" + domain) then Success(name)
    else if Truthy(profileUrl) then
      match hostname(profileUrl.value)
      case None => Failure(InvalidProfileUrl)
      case Some(host) => Success(name + "@" + host)
    else Success(name + "@")
  }

  /** The position of the last `@` in `s`, if any. */
  function LastAt(s: string): (r: Option<nat>)
    ensures r.Some? ==> r.value < |s| && s[r.value] == '@' && '@' !in s[r.value + 1..]
    ensures r.None? ==> '@' !in s
  {
    if s == [] then None
    else if s[|s| - 1] == '@' then Some(|s| - 1)
    else
      var r := LastAt(s[..|s| - 1]);
      assert s == s[..|s| - 1] + [s[|s| - 1]];
      r
  }

  /** Splits a remote identifier `name@host` at its last `@`. */
  function SplitUserId(userId: string): Option<(string, string)> {
    match LastAt(userId)
    case None => None
    case Some(i) => Some((userId[..i], userId[i + 1..]))
  }

  /**
   * A remote identifier determines its name and host: hosts never contain
   * `@`, so the last `@` is the one the handler inserted, even when the
   * name contains `@` itself.
   */
  lemma {:induction false} RemoteUserIdSplits(name: string, host: string)
    requires '@' !in host
    ensures SplitUserId(name + "@" + host) == Some((name, host))
  {
    var s := name + "@" + host;
    LastAtBeforeHost(name, host);
    assert s[..|name|] == name;
    assert s[|name| + 1..] == host;
  }

  lemma {:induction false} LastAtBeforeHost(name: string, host: string)
    requires '@' !in host
    ensures LastAt(name + "@" + host) == Some(|name|)
  {
    var s := name + "@" + host;
    if host != [] {
      var shorter := host[..|host| - 1];
      assert s[..|s| - 1] == name + "@" + shorter;
      assert s[|s| - 1] == host[|host| - 1];
      assert '@' !in shorter by {
        forall k | 0 <= k < |shorter| ensures shorter[k] != '@' {
          assert shorter[k] == host[k];
        }
      }
      LastAtBeforeHost(name, shorter);
    }
  }

  /**
   * The locality test is a string-prefix test on the requested URL: every
   * URL that starts with `https://` and the local domain gets the bare name,
   * whatever follows, so a host that merely begins with the local domain
   * (`example.com.evil.test` for `example.com`) counts as local.
   */
  lemma PrefixTestAcceptsLongerHost(domain: string, rest: string, name: string, profileUrl: Option<string>,
                                    hostname: string -> Option<string>)
    ensures ActorUserId(domain, "https://" + domain + rest, name, profileUrl, hostname) == Success(name)
  {
    var prefix := "https://" + domain;
    assert (prefix + rest)[..|prefix|] == prefix;
  }

  /**
   * The record to save for a fetched document, or the error that stops
   * the handler: no usable name first, then an unparsable profile URL.
   * `rawData` serialises the whole document, keys the handler does not
   * read included.
   */
  function ActorRecordFor(domain: string, url: string, data: Json,
                          hostname: string -> Option<string>, stringify: Json -> string)
    : (r: Result<ActorRecord, SyncError>)
    ensures ActorName(ReadActorDocument(data)).None? ==> r == Failure(Rejected(400, "No name for actor"))
    ensures ActorName(ReadActorDocument(data)).Some? ==>
      (r.Failure? <==> ActorUserId(domain, url, ActorName(ReadActorDocument(data)).value, ReadActorDocument(data).url, hostname).Failure?)
    ensures r.Success? ==>
      var doc, record := ReadActorDocument(data), r.value;
      && ActorName(doc) == Some(record.name)
      && ActorUserId(domain, url, record.name, doc.url, hostname) == Success(record.userId)
      && record.rawData == stringify(data)
      && record.inboxUrl == doc.inbox
      && record.summary == doc.summary
      && record.url == doc.url
      && record.publicKeyPem == doc.publicKeyPem
      && record.iconUrl == doc.iconUrl
  {
    var doc := ReadActorDocument(data);
    match ActorName(doc)
    case None => Failure(Rejected(400, "No name for actor"))
    case Some(name) =>
      match ActorUserId(domain, url, name, doc.url, hostname)
      case Failure(e) => Failure(e)
      case Success(userId) =>
        Success(ActorRecord(userId, stringify(data), doc.inbox, name, doc.summary, doc.url, doc.publicKeyPem, doc.iconUrl))
  }

  /**
   * Two documents that differ only at a key the handler does not read give
   * the same outcome, and records that differ only in `rawData`.
   */
  lemma UnreadKeysOnlyReachRawData(domain: string, url: string, fields: map<string, Json>, key: string, value: Json,
                                   hostname: string -> Option<string>, stringify: Json -> string)
    requires key !in ReadKeys
    ensures
      var before := ActorRecordFor(domain, url, JObject(fields), hostname, stringify);
      var after := ActorRecordFor(domain, url, JObject(fields[key := value]), hostname, stringify);
      && before.Success? == after.Success?
      && (before.Failure? ==> before == after)
      && (before.Success? ==>
            after.value == before.value.(rawData := stringify(JObject(fields[key := value]))))
  {
    UnreadKeysIgnored(fields, key, value);
  }

  /** The actor repository, seen through the records saved to it, oldest first. */
  class ActorRepository {
    var saved: seq<ActorRecord>

    constructor ()
      ensures saved == []
    {
      saved := [];
    }

    method Save(record: ActorRecord)
      modifies this
      ensures saved == old(saved) + [record]
    {
      saved := saved + [record];
    }
  }

  /**
   * `syncActor` after the fetch: fail with 400 when the fetch produced no
   * document, a falsy one or an error, otherwise save the derived record
   * exactly once.
   */
  method SyncActor(actors: ActorRepository, domain: string, url: string, fetched: FetchResult,
                   hostname: string -> Option<string>, stringify: Json -> string)
    returns (outcome: SyncOutcome)
    modifies actors
    ensures fetched.data.None? || !JsTruthy(fetched.data.value) || fetched.error ==>
      outcome == Failed(Rejected(400, "Failed to get actor")) && actors.saved == old(actors.saved)
    ensures fetched.data.Some? && JsTruthy(fetched.data.value) && !fetched.error ==>
      match ActorRecordFor(domain, url, fetched.data.value, hostname, stringify)
      case Failure(e) => outcome == Failed(e) && actors.saved == old(actors.saved)
      case Success(record) => outcome == Synced && actors.saved == old(actors.saved) + [record]
  {
    if fetched.data.None? || !JsTruthy(fetched.data.value) || fetched.error {
      return Failed(Rejected(400, "Failed to get actor"));
    }
    var record := ActorRecordFor(domain, url, fetched.data.value, hostname, stringify);
    if record.Failure? {
      return Failed(record.error);
    }
    actors.Save(record.value);
    outcome := Synced;
  }
}
