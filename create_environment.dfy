/**
  The "create environment" request handler (`api/environments/create.js`).

  One invocation reads the already-parsed request body, checks the fields
  `name`, `description`, `tags` and `isPrivate` in that order (the first
  failing check answers HTTP 400 and nothing else happens), builds the
  environment item, asks the table to store it, and answers according to the
  outcome of that write.

  The handler's effects are parameters here: the generated id, the
  timestamp taken at entry, the configured table name and the error value the
  storage callback receives. What the handler does is returned as an
  `Invocation`: the write it issued, if any, and how it completed.
 */
module CreateEnvironment {
  import opened JsValues

  datatype Option<T> = None | Some(value: T)

  /** The four request fields the handler checks, in a datatype so that
      acceptance conditions and messages can be stated per field. */
  datatype Field = Name | Description | Tags | IsPrivate

  /** The order in which the handler checks the fields. */
  const ValidationOrder: seq<Field> := [Name, Description, Tags, IsPrivate]

  /** The property of the request body each field is read from. */
  function Key(f: Field): string {
    match f
    case Name => "name"
    case Description => "description"
    case Tags => "tags"
    case IsPrivate => "isPrivate"
  }

  const ValidationPrefix := "Validation Error: "
  const NameMessage := ValidationPrefix + "\"name\" is required and must be a \"string\" between 3 and 32"
  const DescriptionMessage := ValidationPrefix + "\"description\" is optional but a \"string\" must be between 3 and 1024"
  const TagsMessage := ValidationPrefix + "\"tags\" is optional but must be an \"array\""
  const IsPrivateMessage := ValidationPrefix + "\"isPrivate\" is optional but must be a \"boolean\""
  const WriteFailureMessage := "Couldn't create the environment item."
  const CorsHeaders: map<string, string> := map["Access-Control-Allow-Origin" := "*"]

  /** The message of the 400 answer that rejects field `f`. */
  function Message(f: Field): string {
    match f
    case Name => NameMessage
    case Description => DescriptionMessage
    case Tags => TagsMessage
    case IsPrivate => IsPrivateMessage
  }

  /** The condition each guard of the handler accepts, stated per field and
      independently of the guard chain: a name that is a string of 3 to 32
      characters; a description, tags and a privacy flag that are each either
      falsy (absent, `null`, `false`, `0` or `""`) or a string of 3 to 1024
      characters, an array of any elements, and a boolean respectively. */
  predicate Admissible(f: Field, v: Value) {
    match f
    case Name => v.Str? && 3 <= |v.s| <= 32
    case Description => Falsy(v) || (v.Str? && 3 <= |v.s| <= 1024)
    case Tags => Falsy(v) || v.Array?
    case IsPrivate => Falsy(v) || v.Bool?
  }

  /** Reading a property of `undefined` or `null` throws a TypeError. */
  predicate Readable(data: Value) {
    !data.Undefined? && !data.Null?
  }

  /** `data.key` for one of the four keys above. None of them is inherited
      from the prototype of a string, number, boolean, array or plain object,
      so a missing own property reads as `undefined`. */
  function Read(data: Value, key: string): (r: Value)
    requires Readable(data)
    ensures data.Object? && key in data.props ==> r == data.props[key]
    ensures r != Undefined ==> data.Object? && key in data.props
  {
    if data.Object? && key in data.props then data.props[key] else Undefined
  }

  /** `validator.isLength(s, {min, max})`, with the length taken as the
      number of characters of the string. */
  function IsLength(s: string, min: nat, max: nat): (ok: bool)
    ensures ok ==> min <= max
    ensures ok <==> min <= |s| && |s| <= max
  {
    min <= |s| <= max
  }

  /** The four guards of the handler, in source order; the result is the
      field whose guard fired first, or None when every guard passes. */
  function Validate(data: Value): (r: Option<Field>)
    requires Readable(data)
    ensures r.Some? ==> !Admissible(r.value, Read(data, Key(r.value)))
    ensures r.None? <==> forall f: Field :: Admissible(f, Read(data, Key(f)))
  {
    var name := Read(data, "name");
    var description := Read(data, "description");
    var tags := Read(data, "tags");
    var isPrivate := Read(data, "isPrivate");
    if TypeOf(name) != "string" || !IsLength(name.s, 3, 32) then
      Some(Name)
    else if Truthy(description) && (TypeOf(description) != "string" || !IsLength(description.s, 3, 1024)) then
      Some(Description)
    else if Truthy(tags) && !IsArray(tags) then
      Some(Tags)
    else if Truthy(isPrivate) && TypeOf(isPrivate) != "boolean" then
      Some(IsPrivate)
    else
      None
  }

  /** The environment record that is written and echoed back. */
  datatype Item = Item(
    id: string,
    name: Value,
    description: Value,
    tags: Value,
    isPrivate: bool,
    createdAt: string,
    updatedAt: string)

  /** The argument of the storage write: the configured table and the item. */
  datatype PutParams = PutParams(tableName: string, item: Item)

  /** A response body before JSON encoding: `{message: ...}` or the item. */
  datatype Body = MessageBody(message: string) | ItemBody(item: Item)

  /** An HTTP response; an empty header map stands for a response object
      without a `headers` property. */
  datatype Response = Response(statusCode: int, headers: map<string, string>, body: Body)

  /** How an invocation ends: the callback receives a response, or an error,
      or the handler throws before calling back. */
  datatype Completion = Responded(response: Response) | Failed(error: string) | Threw

  /** What one invocation does: the write it issues (at most one) and how it
      completes. */
  datatype Invocation = Invocation(put: Option<PutParams>, completion: Completion)

  /** The 400 answer that rejects field `f`. */
  function BadRequest(f: Field): (r: Response)
    ensures r.statusCode == 400 && r.headers == map[]
    ensures r.body == MessageBody(Message(f))
  {
    Response(400, map[], MessageBody(Message(f)))
  }

  /** The item built from a request that passed validation. */
  function BuildItem(data: Value, id: string, timestamp: string): (item: Item)
    requires Readable(data)
    ensures item.id == id
    ensures item.name == Read(data, "name")
    ensures item.description == Read(data, "description")
    ensures item.tags == Read(data, "tags")
    ensures !item.isPrivate
    ensures item.createdAt == item.updatedAt == timestamp
  {
    Item(id, Read(data, "name"), Read(data, "description"), Read(data, "tags"),
         false, timestamp, timestamp)
  }

  /** The handler. `timestamp` is the time captured at entry, `id` the
      generated identifier, `tableName` the configured table and `putError`
      the error value the storage write reports (falsy on success). */
  function Create(data: Value, id: string, timestamp: string, tableName: string, putError: Value): (inv: Invocation)
    ensures inv.completion.Threw? <==> !Readable(data)
    ensures inv.put.Some? <==> Readable(data) && Validate(data).None?
    ensures inv.put.Some? ==> inv.put.value.tableName == tableName
    ensures inv.put.Some? ==> inv.put.value.item.id == id && !inv.put.value.item.isPrivate
    ensures inv.put.Some? ==> inv.put.value.item.createdAt == timestamp == inv.put.value.item.updatedAt
    ensures inv.completion.Failed? ==> inv.put.Some? && Truthy(putError)
    ensures inv.completion.Responded? && inv.completion.response.statusCode == 200 <==>
              inv.put.Some? && !Truthy(putError)
  {
    if !Readable(data) then
      Invocation(None, Threw)
    else
      match Validate(data)
      case Some(f) => Invocation(None, Responded(BadRequest(f)))
      case None =>
        var params := PutParams(tableName, BuildItem(data, id, timestamp));
        var completion :=
          if Truthy(putError) then Failed(WriteFailureMessage)
          else Responded(Response(200, CorsHeaders, ItemBody(params.item)));
        Invocation(Some(params), completion)
  }
}
