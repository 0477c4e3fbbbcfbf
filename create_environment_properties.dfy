/**
  What the "create environment" handler guarantees, stated over all inputs:
  the order of its checks, the exact answer each failed check produces, the
  shape of the stored item and the mapping of the write outcome to the
  answer. The scenarios at the end are four concrete requests: a name
  that is too short, tags that are not an array, a request with `isPrivate`
  true, and a valid request whose write fails.
 */
module CreateEnvironmentProperties {
  import opened JsValues
  import opened CreateEnvironment

  /** `f` is the first field, in validation order, whose value is not
      admissible, and every field before it is admissible. */
  ghost predicate IsFirstRejected(data: Value, f: Field)
    requires Readable(data)
  {
    exists i :: 0 <= i < |ValidationOrder| && ValidationOrder[i] == f
      && !Admissible(f, Read(data, Key(f)))
      && forall j :: 0 <= j < i ==> Admissible(ValidationOrder[j], Read(data, Key(ValidationOrder[j])))
  }

  /** The position of `f` in the validation order. */
  function Position(f: Field): (i: nat)
    ensures i < |ValidationOrder| && ValidationOrder[i] == f
    ensures forall j :: 0 <= j < |ValidationOrder| && ValidationOrder[j] == f ==> j == i
  {
    match f
    case Name => 0
    case Description => 1
    case Tags => 2
    case IsPrivate => 3
  }

  /** The handler's guards implement "first failure wins": it rejects
      exactly the first inadmissible field in the order name, description,
      tags, isPrivate, and accepts exactly when every field is admissible. */
  lemma ValidateIsFirstRejection(data: Value)
    requires Readable(data)
    ensures forall f :: Validate(data) == Some(f) <==> IsFirstRejected(data, f)
    ensures Validate(data).None? <==> forall f :: !IsFirstRejected(data, f)
  {
    forall f
      ensures Validate(data) == Some(f) <==> IsFirstRejected(data, f)
    {
      var i := Position(f);
      if Validate(data) == Some(f) {
        forall j | 0 <= j < i
          ensures Admissible(ValidationOrder[j], Read(data, Key(ValidationOrder[j])))
        {
          var g := ValidationOrder[j];
          assert Position(g) == j;
        }
        assert IsFirstRejected(data, f);
      }
      if IsFirstRejected(data, f) {
        var k :| 0 <= k < |ValidationOrder| && ValidationOrder[k] == f
          && !Admissible(f, Read(data, Key(f)))
          && forall j :: 0 <= j < k ==> Admissible(ValidationOrder[j], Read(data, Key(ValidationOrder[j])));
        assert k == i;
        assert 0 < i ==> Admissible(Name, Read(data, Key(ValidationOrder[0])));
        assert 1 < i ==> Admissible(Description, Read(data, Key(ValidationOrder[1])));
        assert 2 < i ==> Admissible(Tags, Read(data, Key(ValidationOrder[2])));
        assert Validate(data) == Some(f);
      }
    }
    if Validate(data).Some? {
      assert IsFirstRejected(data, Validate(data).value);
    }
  }

  /** Every 400 answer carries a message starting "Validation Error: ",
      and the four answers differ, so the answer identifies the rejected
      field. */
  lemma BadRequestNamesField(f: Field, g: Field)
    ensures var m := BadRequest(f).body.message;
            |m| > |ValidationPrefix| && m[..|ValidationPrefix|] == ValidationPrefix
    ensures BadRequest(f) == BadRequest(g) <==> f == g
  {
  }

  /** A `name` that is not a string of 3 to 32 characters is answered with
      the "name" message whatever the other fields hold; no other `name` is. */
  lemma NameRule(data: Value, id: string, timestamp: string, tableName: string, putError: Value)
    requires Readable(data)
    ensures (Create(data, id, timestamp, tableName, putError).completion == Responded(Response(400, map[], MessageBody(NameMessage))))
              <==> !(Read(data, "name").Str? && 3 <= |Read(data, "name").s| <= 32)
  {
  }

  /** With a valid `name`, a truthy `description` that is not a string of
      3 to 1024 characters is answered with the "description" message; a
      falsy one is never rejected. */
  lemma DescriptionRule(data: Value, id: string, timestamp: string, tableName: string, putError: Value)
    requires Readable(data)
    ensures (Create(data, id, timestamp, tableName, putError).completion == Responded(Response(400, map[], MessageBody(DescriptionMessage))))
              <==> Admissible(Name, Read(data, "name"))
                   && Truthy(Read(data, "description"))
                   && !(Read(data, "description").Str? && 3 <= |Read(data, "description").s| <= 1024)
    ensures Falsy(Read(data, "description")) ==> Validate(data) != Some(Description)
  {
  }

  /** With `name` and `description` passing, a truthy `tags` that is not an
      array is answered with the "tags" message; a falsy one is never
      rejected. */
  lemma TagsRule(data: Value, id: string, timestamp: string, tableName: string, putError: Value)
    requires Readable(data)
    ensures (Create(data, id, timestamp, tableName, putError).completion == Responded(Response(400, map[], MessageBody(TagsMessage))))
              <==> Admissible(Name, Read(data, "name")) && Admissible(Description, Read(data, "description"))
                   && Truthy(Read(data, "tags")) && !Read(data, "tags").Array?
    ensures Falsy(Read(data, "tags")) ==> Validate(data) != Some(Tags)
  {
  }

  /** With the earlier fields passing, a truthy `isPrivate` that is not a
      boolean is answered with the "isPrivate" message; falsy values and
      `true` both pass. */
  lemma IsPrivateRule(data: Value, id: string, timestamp: string, tableName: string, putError: Value)
    requires Readable(data)
    ensures (Create(data, id, timestamp, tableName, putError).completion == Responded(Response(400, map[], MessageBody(IsPrivateMessage))))
              <==> Admissible(Name, Read(data, "name")) && Admissible(Description, Read(data, "description"))
                   && Admissible(Tags, Read(data, "tags"))
                   && Truthy(Read(data, "isPrivate")) && !Read(data, "isPrivate").Bool?
    ensures Falsy(Read(data, "isPrivate")) || Read(data, "isPrivate") == Bool(true) ==>
              Validate(data) != Some(IsPrivate)
  {
  }

  /** A rejected request is answered before the write: nothing is stored. */
  lemma RejectionWritesNothing(data: Value, id: string, timestamp: string, tableName: string, putError: Value)
    ensures var inv := Create(data, id, timestamp, tableName, putError);
            inv.completion.Responded? && inv.completion.response.statusCode == 400 <==>
              inv.put.None? && !inv.completion.Threw?
  {
  }

  /** The stored item copies `name`, `description` and `tags` unchanged,
      forces `isPrivate` to false and stamps both times with the one
      timestamp taken at entry. */
  lemma StoredItem(data: Value, id: string, timestamp: string, tableName: string, putError: Value)
    requires Readable(data) && Validate(data).None?
    ensures var inv := Create(data, id, timestamp, tableName, putError);
            && inv.put.Some?
            && inv.put.value.tableName == tableName
            && var item := inv.put.value.item;
            && item.id == id
            && item.name == Read(data, "name")
            && item.description == Read(data, "description")
            && item.tags == Read(data, "tags")
            && item.isPrivate == false
            && item.createdAt == item.updatedAt == timestamp
  {
  }

  /** The `isPrivate` of the request is checked and then discarded: a
      request that supplies a boolean `isPrivate` is handled exactly as the
      same request without it. */
  lemma SuppliedIsPrivateDiscarded(props: map<string, Value>, b: bool, id: string, timestamp: string, tableName: string, putError: Value)
    ensures Create(Object(props["isPrivate" := Bool(b)]), id, timestamp, tableName, putError)
         == Create(Object(props - {"isPrivate"}), id, timestamp, tableName, putError)
  {
  }

  /** Only the four checked properties of the request influence the
      handler: two readable requests that agree on them are handled alike. */
  lemma OnlyCheckedFieldsMatter(d1: Value, d2: Value, id: string, timestamp: string, tableName: string, putError: Value)
    requires Readable(d1) && Readable(d2)
    requires forall f :: Read(d1, Key(f)) == Read(d2, Key(f))
    ensures Create(d1, id, timestamp, tableName, putError) == Create(d2, id, timestamp, tableName, putError)
  {
    assert Read(d1, Key(Name)) == Read(d2, Key(Name));
    assert Read(d1, Key(Description)) == Read(d2, Key(Description));
    assert Read(d1, Key(Tags)) == Read(d2, Key(Tags));
    assert Read(d1, Key(IsPrivate)) == Read(d2, Key(IsPrivate));
  }

  /** A failed write ends in the error "Couldn't create the environment
      item." without a status code; a successful one in status 200 with the
      CORS header and the stored item as body. */
  lemma WriteOutcome(data: Value, id: string, timestamp: string, tableName: string, putError: Value)
    requires Readable(data) && Validate(data).None?
    ensures var inv := Create(data, id, timestamp, tableName, putError);
            && inv.put.Some?
            && (Truthy(putError) ==> inv.completion == Failed("Couldn't create the environment item."))
            && (!Truthy(putError) ==>
                  inv.completion == Responded(Response(200, map["Access-Control-Allow-Origin" := "*"], ItemBody(inv.put.value.item))))
  {
  }

  /** Every invocation ends in exactly one of four ways, each decided by the
      input alone: a TypeError for an unreadable body, 400 for a rejected
      field, the write error, or 200. */
  lemma CompletionCases(data: Value, id: string, timestamp: string, tableName: string, putError: Value)
    ensures var c := Create(data, id, timestamp, tableName, putError).completion;
            && (c.Threw? <==> !Readable(data))
            && (Readable(data) && Validate(data).Some? ==> c == Responded(BadRequest(Validate(data).value)))
            && (c.Failed? <==> Readable(data) && Validate(data).None? && Truthy(putError))
            && (c.Responded? ==> c.response.statusCode == 200 || c.response.statusCode == 400)
  {
  }

  /** No check is dead: for every field there is a request that the
      handler rejects because of that field. */
  lemma EveryCheckCanFire(f: Field)
    ensures exists data :: Readable(data) && Validate(data) == Some(f)
  {
    var ok := map["name" := Str("valid-name")];
    var data := match f
      case Name => Object(map[])
      case Description => Object(ok["description" := Number(7)])
      case Tags => Object(ok["tags" := Str("not-an-array")])
      case IsPrivate => Object(ok["isPrivate" := Str("yes")]);
    assert Validate(data) == Some(f);
  }

  /** `{"name": "ab"}` is answered 400 with the "name" message. */
  lemma ShortNameScenario(id: string, timestamp: string, tableName: string, putError: Value)
    ensures Create(Object(map["name" := Str("ab")]), id, timestamp, tableName, putError)
         == Invocation(None, Responded(Response(400, map[], MessageBody(NameMessage))))
  {
  }

  /** `{"name": "valid-name", "tags": "not-an-array"}` is answered 400 with
      the "tags" message. */
  lemma TagsNotArrayScenario(id: string, timestamp: string, tableName: string, putError: Value)
    ensures Create(Object(map["name" := Str("valid-name"), "tags" := Str("not-an-array")]), id, timestamp, tableName, putError)
         == Invocation(None, Responded(Response(400, map[], MessageBody(TagsMessage))))
  {
  }

  /** `{"name": "valid-name", "isPrivate": true}` with a successful write is
      answered 200 and the echoed item has `isPrivate` false. */
  lemma IsPrivateTrueScenario(id: string, timestamp: string, tableName: string)
    ensures var inv := Create(Object(map["name" := Str("valid-name"), "isPrivate" := Bool(true)]), id, timestamp, tableName, Null);
            && inv.completion.Responded?
            && inv.completion.response.statusCode == 200
            && inv.completion.response.body.ItemBody?
            && inv.completion.response.body.item.isPrivate == false
  {
  }

  /** When the write fails, a valid request ends in the generic error and
      not in a 400 answer. */
  lemma WriteFailureScenario(id: string, timestamp: string, tableName: string, putError: Value)
    requires Truthy(putError)
    ensures Create(Object(map["name" := Str("valid-name")]), id, timestamp, tableName, putError).completion
         == Failed(WriteFailureMessage)
  {
  }
}
