/** `AbstractModelLogger`: the audit record written for an Eloquent `created`, `updated` or
    `deleted` event — its log name, event, description (with the acting user) and the
    changed attributes. */
module ModelLogger {
  import opened PhpArrays
  import opened LoggableAttributes

  /** An authenticated principal; `isGeneric` marks Laravel's placeholder `GenericUser`. */
  datatype Principal = Principal(id: string, isGeneric: bool)

  /** The session as `auth()` reports it: no authenticated session, or one with the user
      that `auth()->user()` returns (possibly none). */
  datatype Auth = NoSession | Authenticated(user: Option<Principal>)

  /** The record handed to the activity log: `useLog`, `event`, `performedOn`,
      `withProperties` and the `log` description. */
  datatype AuditRecord = AuditRecord(
    logName: string,
    event: string,
    subject: Model,
    properties: Properties,
    description: string)

  /** A concrete logger: `logName` is its `getLogName()`; `modelName` stands for
      `Str::of(class_basename($class))->headline()` and `displayName` for
      `Filament::getUserName`, both library code outside this model. */
  datatype Logger = Logger(
    logName: string,
    modelName: string -> string,
    displayName: Principal -> string)
  {
    /** `getUserName`: "Anonymous" for no user or a `GenericUser`, the display name
        otherwise. */
    function UserName(user: Option<Principal>): (name: string)
      ensures user.None? || user.value.isGeneric ==> name == "Anonymous"
      ensures user.Some? && !user.value.isGeneric ==> name == displayName(user.value)
    {
      if user.None? || user.value.isGeneric then "Anonymous" else displayName(user.value)
    }

    /** The description before the actor suffix: the explicit one, or "<Model Name> <event>". */
    function BaseDescription(model: Model, event: string, description: Option<string>): (base: string)
      ensures description.Some? ==> base == description.value
      ensures description.None? ==> base == modelName(model.className) + " " + event
    {
      if description.None? then modelName(model.className) + " " + event else description.value
    }

    /** The description `log` writes: " by <user>" is appended only in an authenticated
        session. */
    function Description(model: Model, event: string, description: Option<string>, auth: Auth): (d: string)
      ensures var base := BaseDescription(model, event, description);
        && |base| <= |d| && d[..|base|] == base
        && (auth.NoSession? <==> d == base)
        && (auth.Authenticated? ==> d[|base|..] == " by " + UserName(auth.user))
    {
      var base := BaseDescription(model, event, description);
      if auth.Authenticated? then base + " by " + UserName(auth.user) else base
    }

    /** `log($model, $event, $description, $attributes)`: the record it hands to the
        activity logger. */
    function Log(model: Model, event: string, description: Option<string>, attributes: Mixed, auth: Auth): (r: AuditRecord)
      ensures r.logName == logName && r.event == event && r.subject == model
      ensures r.properties == Loggable(model, attributes)
      ensures !attributes.Array? ==> r.properties == NoProperties
      ensures r.description == Description(model, event, description, auth)
    {
      AuditRecord(logName, event, model, Loggable(model, attributes), Description(model, event, description, auth))
    }

    /** `created`: logs the full attribute array. */
    function Created(model: Model, auth: Auth): (r: Option<AuditRecord>)
      ensures r.Some? && r.value.event == "Created" && r.value.logName == logName && r.value.subject == model
      ensures r.value.properties == Loggable(model, Array(model.attributes))
      ensures r.value.description == Description(model, "Created", None, auth)
    {
      Some(Log(model, "Created", None, Array(model.attributes), auth))
    }

    /** `updated`: logs only the change set, and nothing at all when the change set is
        exactly `remember_token`. */
    function Updated(model: Model, auth: Auth): (r: Option<AuditRecord>)
      ensures r.None? <==> |model.changes| == 1 && "remember_token" in KeyList(model.changes)
      ensures r.Some? ==>
        && r.value.event == "Updated" && r.value.logName == logName && r.value.subject == model
        && r.value.properties == Loggable(model, Array(model.changes))
        && r.value.description == Description(model, "Updated", None, auth)
    {
      var changes := model.changes;
      if |changes| == 1 && "remember_token" in KeyList(changes) then None
      else Some(Log(model, "Updated", None, Array(changes), auth))
    }

    /** `deleted`: passes no attributes, so its properties are always empty. */
    function Deleted(model: Model, auth: Auth): (r: Option<AuditRecord>)
      ensures r.Some? && r.value.event == "Deleted" && r.value.logName == logName && r.value.subject == model
      ensures r.value.properties == NoProperties
      ensures r.value.description == Description(model, "Deleted", None, auth)
    {
      Some(Log(model, "Deleted", None, Scalar(Null), auth))
    }
  }

  /** The three session cases stay distinct: no suffix without a session, " by Anonymous"
      for a missing or generic principal, " by <display name>" for a full user; an explicit
      description replaces "<Model Name> <event>". */
  lemma DescriptionCases(logger: Logger, model: Model, event: string, description: Option<string>, auth: Auth)
    ensures var d := logger.Description(model, event, description, auth);
      var base := if description.Some? then description.value else logger.modelName(model.className) + " " + event;
      && (auth.NoSession? ==> d == base)
      && (auth.Authenticated? && (auth.user.None? || auth.user.value.isGeneric) ==> d == base + " by Anonymous")
      && (auth.Authenticated? && auth.user.Some? && !auth.user.value.isGeneric ==>
            d == base + " by " + logger.displayName(auth.user.value))
  {
  }

  /** The description tells an authenticated session from none: the unauthenticated one is
      exactly the base text, and every authenticated one strictly extends it. */
  lemma SessionShowsInDescription(logger: Logger, model: Model, event: string, description: Option<string>, user: Option<Principal>)
    ensures var anonymous := logger.Description(model, event, description, NoSession);
      var signed := logger.Description(model, event, description, Authenticated(user));
      && |anonymous| < |signed|
      && signed[..|anonymous|] == anonymous
      && anonymous != signed
  {
  }

  /** A change set holding `remember_token` together with any other key is still logged. */
  lemma RememberTokenWithOthersLogged(logger: Logger, model: Model, auth: Auth)
    requires "remember_token" in KeyList(model.changes) && |model.changes| > 1
    ensures logger.Updated(model, auth).Some?
  {
  }

  /** On creation with no original values, every attribute that survives the filters and is
      not `null` is logged with `null` as its old value, and nothing else is logged. */
  lemma CreatedWithoutOriginal(logger: Logger, model: Model, auth: Auth)
    requires model.original == [] && DistinctKeys(model.attributes)
    ensures var p := logger.Created(model, auth).value.properties;
      && (forall k :: k in AttributesOf(p) <==>
            k in ToMap(model.attributes) && Kept(model, k) && ToMap(model.attributes)[k] != Null)
      && (forall k :: k in AttributesOf(p) ==> AttributesOf(p)[k] == ToMap(model.attributes)[k])
      && OldOf(p).Keys == AttributesOf(p).Keys
      && (forall k :: k in OldOf(p) ==> OldOf(p)[k] == Null)
  {
    LoggableSpec(model, model.attributes);
  }

  /** An update whose change set keeps every surviving key's original value is still
      logged, with empty properties (unless it is the lone `remember_token` change). */
  lemma UnchangedUpdateHasNoProperties(logger: Logger, model: Model, auth: Auth)
    requires DistinctKeys(model.changes)
    requires forall k :: k in ToMap(model.changes) && Kept(model, k) ==>
      ToMap(model.changes)[k] == ValueOrNull(model.original, k)
    ensures var r := logger.Updated(model, auth); r.Some? ==> r.value.properties == NoProperties
  {
    NoPropertiesIffUnchanged(model, model.changes);
  }

  /** A status update from "pending" to "paid" logs exactly that key, old and new. */
  lemma StatusUpdateExample(logger: Logger, auth: Auth)
    ensures var model := Model("Invoice", [], [("status", Str("pending"))], [("status", Str("paid"))], [], []);
      logger.Updated(model, auth) == Some(AuditRecord(logger.logName, "Updated", model,
        Changes([("status", Str("paid"))], [("status", Str("pending"))]),
        logger.Description(model, "Updated", None, auth)))
  {
  }

  /** A created model with an amount and a creation time logs only the amount. */
  lemma CreatedExample(logger: Logger, auth: Auth)
    ensures var model := Model("InvoiceItem", [("amount", Int(10)), ("created_at", Str("2024-01-01"))], [], [], [], []);
      logger.Created(model, auth).value.properties == Changes([("amount", Int(10))], [("amount", Null)])
  {
    var attributes: Entries := [("amount", Int(10)), ("created_at", Str("2024-01-01"))];
    var first: Entries := [("amount", Int(10))];
    assert attributes[..1] == first && first[..0] == [];
    assert "amount" !in Timestamps && "created_at" in Timestamps;
    assert DiffKey(first, Timestamps) == first;
    assert DiffKey(attributes, Timestamps) == first;
    assert ChangedAndOld(first, []) == (first, [("amount", Null)]);
  }

  /** With visible keys a, b, c and hidden key b, of the candidates a, b, c, d only a and c
      are kept, in that order. */
  lemma FilterPrecedenceExample()
    ensures var model := Model("Post", [], [], [], ["a", "b", "c"], ["b"]);
      Filtered(model, [("a", Int(1)), ("b", Int(2)), ("c", Int(3)), ("d", Int(4))]) == [("a", Int(1)), ("c", Int(3))]
  {
    VisibleStep();
    HiddenStep();
    TimestampStep();
    var model := Model("Post", [], [], [], ["a", "b", "c"], ["b"]);
    assert |model.visible| > 0 && |model.hidden| > 0;
  }

  /** The visible filter of the example keeps a, b and c, in order. */
  lemma VisibleStep()
    ensures IntersectKey([("a", Int(1)), ("b", Int(2)), ("c", Int(3)), ("d", Int(4))], ["a", "b", "c"])
      == [("a", Int(1)), ("b", Int(2)), ("c", Int(3))]
  {
    var visible := ["a", "b", "c"];
    var a: Entries := [("a", Int(1))];
    var ab: Entries := a + [("b", Int(2))];
    var abc: Entries := ab + [("c", Int(3))];
    var abcd: Entries := abc + [("d", Int(4))];
    assert abcd == [("a", Int(1)), ("b", Int(2)), ("c", Int(3)), ("d", Int(4))];
    assert abcd[..3] == abc && abc[..2] == ab && ab[..1] == a && a[..0] == [];
    assert "a" in visible && "b" in visible && "c" in visible && "d" !in visible;
    assert FilterKeys(a, visible, true) == a;
    assert FilterKeys(ab, visible, true) == ab;
    assert FilterKeys(abc, visible, true) == abc;
  }

  /** The hidden filter of the example drops b and keeps a and c, in order. */
  lemma HiddenStep()
    ensures DiffKey([("a", Int(1)), ("b", Int(2)), ("c", Int(3))], ["b"]) == [("a", Int(1)), ("c", Int(3))]
  {
    var hidden := ["b"];
    var a: Entries := [("a", Int(1))];
    var ab: Entries := a + [("b", Int(2))];
    var abc: Entries := ab + [("c", Int(3))];
    var ac: Entries := a + [("c", Int(3))];
    assert abc == [("a", Int(1)), ("b", Int(2)), ("c", Int(3))];
    assert ac == [("a", Int(1)), ("c", Int(3))];
    assert abc[..2] == ab && ab[..1] == a && a[..0] == [];
    assert "a" !in hidden && "b" in hidden && "c" !in hidden;
    assert FilterKeys(a, hidden, false) == a;
    assert FilterKeys(ab, hidden, false) == a;
  }

  /** The timestamp filter of the example drops nothing. */
  lemma TimestampStep()
    ensures DiffKey([("a", Int(1)), ("c", Int(3))], Timestamps) == [("a", Int(1)), ("c", Int(3))]
  {
    var a: Entries := [("a", Int(1))];
    var ac: Entries := a + [("c", Int(3))];
    assert ac == [("a", Int(1)), ("c", Int(3))];
    assert ac[..1] == a && a[..0] == [];
    assert "a" !in Timestamps && "c" !in Timestamps;
    assert FilterKeys(a, Timestamps, false) == a;
  }
}
