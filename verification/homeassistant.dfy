/** The Home Assistant command logic over one snapshot of entity states: the
    domain of an entity, the per-domain listings, the first-match lookup by
    name, the validation of the requested action and the service call the
    lights, switches, climate and automation commands end in. The HTTP client
    is outside the model: the snapshot is an input and a service call is a
    value in the reply. */
module HomeAssistant {
  import opened PyText

  datatype Entity = Entity(entityId: string, state: string, friendlyName: Option<string>)

  /** `entity_id.split('.')[0]` */
  function Domain(e: Entity): (d: string)
    ensures '.' !in d
    ensures StartsWith(e.entityId, d)
    ensures |d| < |e.entityId| ==> e.entityId[|d|] == '.'
    ensures '.' !in e.entityId ==> d == e.entityId
  {
    var id := e.entityId;
    if '.' in id then
      var k := IndexOf(id, '.');
      assert Split(id, '.')[0] == id[..k];
      Split(id, '.')[0]
    else Split(id, '.')[0]
  }

  /** An entity id starts with `domain + "."` exactly when the entity has that
      domain and its id holds a dot, so the prefix filters below select whole
      domains. */
  lemma DomainPrefix(e: Entity, domain: string)
    requires '.' !in domain
    ensures StartsWith(e.entityId, domain + ".") <==> Domain(e) == domain && '.' in e.entityId
  {
    var id := e.entityId;
    var d := Domain(e);
    if StartsWith(id, domain + ".") {
      assert id[..|domain|] == domain;
      assert id[|domain|] == '.';
    }
  }

  /** `[s for s in states if s['entity_id'].startswith(domain + '.')]` */
  function OfDomain(states: seq<Entity>, domain: string): (r: seq<Entity>)
    ensures |r| <= |states|
    ensures forall e :: e in r <==> e in states && StartsWith(e.entityId, domain + ".")
  {
    if |states| == 0 then []
    else
      var rest := OfDomain(states[1..], domain);
      assert forall e :: e in states <==> e == states[0] || e in states[1..];
      if StartsWith(states[0].entityId, domain + ".") then [states[0]] + rest else rest
  }

  /** The filter keeps snapshot order: it commutes with concatenation. */
  lemma {:induction false} OfDomainAppend(a: seq<Entity>, b: seq<Entity>, domain: string)
    ensures OfDomain(a + b, domain) == OfDomain(a, domain) + OfDomain(b, domain)
  {
    if |a| == 0 {
      assert a + b == b;
    } else {
      assert (a + b)[0] == a[0];
      assert (a + b)[1..] == a[1..] + b;
      OfDomainAppend(a[1..], b, domain);
    }
  }

  /** The lowercased search term occurs in the lowercased entity id or in the
      lowercased friendly name (a missing name reads as ""). */
  predicate Matches(e: Entity, term: string) {
    Contains(Lower(e.entityId), term) || Contains(Lower(e.friendlyName.GetOr("")), term)
  }

  /** The lookup loop: the position of the first entity the term matches. */
  function FirstMatch(es: seq<Entity>, term: string): (r: Option<nat>)
    ensures r.Some? ==> r.value < |es| && Matches(es[r.value], term)
    ensures r.Some? ==> forall i :: 0 <= i < r.value ==> !Matches(es[i], term)
    ensures r.None? <==> forall i :: 0 <= i < |es| ==> !Matches(es[i], term)
  {
    if |es| == 0 then None
    else if Matches(es[0], term) then Some(0)
    else
      match FirstMatch(es[1..], term)
      case Some(k) =>
        assert forall i :: 1 <= i <= k ==> es[i] == es[1..][i - 1];
        Some(k + 1)
      case None =>
        assert forall i :: 1 <= i < |es| ==> es[i] == es[1..][i - 1];
        None
  }

  /** The term Python's `get_arg(i, default)` yields. */
  function ArgOr(args: seq<string>, i: nat, default: string): (r: string)
    ensures i < |args| ==> r == args[i]
    ensures i >= |args| ==> r == default
  {
    if i < |args| then args[i] else default
  }

  /** A listing: the entities shown and the number the overflow line reports. */
  datatype Listing = Listing(shown: seq<Entity>, more: Option<int>)

  /** The default of `max_entities_per_response`. */
  const DefaultMaxEntities := 20

  /** The listings of lights, switches, sensors and automations as written:
      the overflow line subtracts the default 20 whatever the configured limit. */
  function ListingAsWritten(es: seq<Entity>, limit: int): (l: Listing)
    ensures l.shown == PyPrefix(es, limit)
    ensures l.more.Some? <==> |es| > limit
    ensures l.more.Some? ==> l.more.value == |es| - DefaultMaxEntities
  {
    Listing(PyPrefix(es, limit), if |es| > limit then Some(|es| - DefaultMaxEntities) else None)
  }

  /** With any limit but the default, the overflow line of a truncated listing
      reports a count other than the number of entities left out. */
  lemma ListingAsWrittenMiscounts(es: seq<Entity>, limit: int)
    requires 0 <= limit < |es| && limit != DefaultMaxEntities
    ensures ListingAsWritten(es, limit).more.value != |es| - |ListingAsWritten(es, limit).shown|
  {
  }

  /** Ten entities under a limit of five: five are hidden, the line says -10. */
  lemma ListingAsWrittenExample(es: seq<Entity>)
    requires |es| == 10
    ensures |ListingAsWritten(es, 5).shown| == 5
    ensures ListingAsWritten(es, 5).more == Some(-10)
  {
  }

  /** The listing with the overflow line counting the entities left out. */
  function ListingOf(es: seq<Entity>, limit: int): (l: Listing)
    ensures |l.shown| <= |es| && l.shown == es[..|l.shown|]
    ensures 0 <= limit ==> |l.shown| == Min(limit, |es|)
    ensures l.more.Some? <==> |es| > limit
    ensures l.more.Some? ==> |l.shown| + l.more.value == |es|
    ensures l.more.Some? && |es| > 0 ==> l.more.value > 0
    ensures l.more.None? ==> l.shown == es
  {
    var shown := PyPrefix(es, limit);
    Listing(shown, if |es| > limit then Some(|es| - |shown|) else None)
  }

  /** At the default limit both listings agree. */
  lemma ListingsAgreeAtDefault(es: seq<Entity>)
    ensures ListingOf(es, DefaultMaxEntities) == ListingAsWritten(es, DefaultMaxEntities)
  {
  }

  /** What a command replies with. `Service` is the one reply that calls Home
      Assistant. */
  datatype Reply =
    | NoneFound
    | Listed(listing: Listing)
    | NeedAction
    | BadAction
    | NeedTemperature
    | BadTemperature
    | NotFound(term: string)
    | Service(domain: string, service: string, entityId: string, temperature: Option<string>)

  /** The service an accepted action maps to. */
  function ServiceFor(action: string): (s: string)
    requires action == "on" || action == "off"
    ensures s == "turn_on" <==> action == "on"
    ensures s == "turn_off" <==> action == "off"
  {
    if action == "on" then "turn_on" else "turn_off"
  }

  /** The lights and switches commands (`domain` is "light" or "switch"):
      without a name the domain is listed; otherwise the lowercased action must
      be "on" or "off", which is checked before the lookup, and the first
      entity of the domain the lowercased name matches is switched. */
  function ToggleCommand(states: seq<Entity>, domain: string, args: seq<string>, limit: int): (r: Reply)
    ensures |args| <= 1 ==> (r.NoneFound? <==> OfDomain(states, domain) == [])
    ensures |args| <= 1 ==> r.NoneFound? || r.Listed?
    ensures |args| <= 1 && r.Listed? ==> r.listing == ListingOf(OfDomain(states, domain), limit)
    ensures |args| > 1 ==> r.NeedAction? || r.BadAction? || r.NotFound? || r.Service?
    ensures |args| > 1 ==>
      (var action := Lower(ArgOr(args, 2, ""));
       && (action == "" <==> r.NeedAction?)
       && (action != "" && action != "on" && action != "off" <==> r.BadAction?)
       && ((action == "on" || action == "off") ==>
             (r.NotFound? <==> FirstMatch(OfDomain(states, domain), Lower(args[1])).None?)))
    ensures r.NotFound? ==>
      (&& |args| > 1 && r.term == Lower(args[1])
       && forall e :: e in OfDomain(states, domain) ==> !Matches(e, Lower(args[1])))
    ensures r.Service? ==>
      (&& |args| > 1
       && r.domain == domain
       && (var action := Lower(ArgOr(args, 2, ""));
           (action == "on" || action == "off") && r.service == ServiceFor(action))
       && (var es := OfDomain(states, domain); var k := FirstMatch(es, Lower(args[1]));
           k.Some? && r.entityId == es[k.value].entityId)
       && r.temperature.None?)
  {
    var es := OfDomain(states, domain);
    if |args| <= 1 then
      if |es| == 0 then NoneFound else Listed(ListingOf(es, limit))
    else
      var name := Lower(args[1]);
      var action := Lower(ArgOr(args, 2, ""));
      if action == "" then NeedAction
      else if action != "on" && action != "off" then BadAction
      else
        match FirstMatch(es, name)
        case None =>
          assert forall e :: e in es ==> !Matches(e, name) by {
            forall e | e in es ensures !Matches(e, name) {
              var i :| 0 <= i < |es| && es[i] == e;
            }
          }
          NotFound(name)
        case Some(k) => Service(domain, ServiceFor(action), es[k].entityId, None)
  }

  /** An action other than "on" or "off" is refused before the snapshot is
      looked at: the reply is the same for every snapshot. */
  lemma ActionCheckedBeforeLookup(s1: seq<Entity>, s2: seq<Entity>, domain: string, args: seq<string>, limit: int)
    requires |args| > 1
    requires Lower(ArgOr(args, 2, "")) != "on" && Lower(ArgOr(args, 2, "")) != "off"
    ensures ToggleCommand(s1, domain, args, limit) == ToggleCommand(s2, domain, args, limit)
  {
  }

  /** The sensors command: a listing of the sensor domain. */
  function SensorsCommand(states: seq<Entity>, limit: int): (r: Reply)
    ensures r.NoneFound? <==> OfDomain(states, "sensor") == []
    ensures r.Listed? ==> r.listing == ListingOf(OfDomain(states, "sensor"), limit)
    ensures r.NoneFound? || r.Listed?
  {
    var es := OfDomain(states, "sensor");
    if |es| == 0 then NoneFound else Listed(ListingOf(es, limit))
  }

  /** The climate command. Every climate device is listed (no limit). Setting
      a temperature needs a non-empty value that `float()` accepts; whether it
      does is the parameter `parsesAsFloat`, since floats are outside the
      model. */
  function ClimateCommand(states: seq<Entity>, args: seq<string>, parsesAsFloat: string -> bool): (r: Reply)
    ensures |args| <= 1 ==> (r.NoneFound? <==> OfDomain(states, "climate") == [])
    ensures |args| <= 1 ==> r.NoneFound? || r.Listed?
    ensures |args| <= 1 && r.Listed? ==> r.listing == Listing(OfDomain(states, "climate"), None)
    ensures |args| > 1 ==> r.NeedTemperature? || r.BadTemperature? || r.NotFound? || r.Service?
    ensures |args| > 1 ==> (r.NeedTemperature? <==> ArgOr(args, 2, "") == "")
    ensures |args| > 1 ==> (r.BadTemperature? <==> ArgOr(args, 2, "") != "" && !parsesAsFloat(ArgOr(args, 2, "")))
    ensures |args| > 1 && ArgOr(args, 2, "") != "" && parsesAsFloat(ArgOr(args, 2, "")) ==>
      (r.NotFound? <==> FirstMatch(OfDomain(states, "climate"), Lower(args[1])).None?)
    ensures r.Service? ==>
      (&& |args| > 2 && parsesAsFloat(args[2])
       && r == Service("climate", "set_temperature", r.entityId, Some(args[2]))
       && (var es := OfDomain(states, "climate"); var k := FirstMatch(es, Lower(args[1]));
           k.Some? && r.entityId == es[k.value].entityId))
    ensures r.NotFound? ==>
      (&& |args| > 1 && r.term == Lower(args[1])
       && forall e :: e in OfDomain(states, "climate") ==> !Matches(e, Lower(args[1])))
  {
    var es := OfDomain(states, "climate");
    if |args| <= 1 then
      if |es| == 0 then NoneFound else Listed(Listing(es, None))
    else
      var name := Lower(args[1]);
      var temperature := ArgOr(args, 2, "");
      if temperature == "" then NeedTemperature
      else if !parsesAsFloat(temperature) then BadTemperature
      else
        match FirstMatch(es, name)
        case None =>
          assert forall e :: e in es ==> !Matches(e, name) by {
            forall e | e in es ensures !Matches(e, name) {
              var i :| 0 <= i < |es| && es[i] == e;
            }
          }
          NotFound(name)
        case Some(k) => Service("climate", "set_temperature", es[k].entityId, Some(temperature))
  }

  /** The automation command: the search term is every word after the
      subcommand, joined with spaces and lowercased; the first matching
      automation is triggered. */
  function AutomationCommand(states: seq<Entity>, args: seq<string>, limit: int): (r: Reply)
    ensures |args| <= 1 ==> (r.NoneFound? <==> OfDomain(states, "automation") == [])
    ensures |args| <= 1 ==> r.NoneFound? || r.Listed?
    ensures |args| <= 1 && r.Listed? ==> r.listing == ListingOf(OfDomain(states, "automation"), limit)
    ensures |args| > 1 ==> r.NotFound? || r.Service?
    ensures |args| > 1 ==> (r.NotFound? <==> FirstMatch(OfDomain(states, "automation"), Lower(Join(args[1..], " "))).None?)
    ensures r.NotFound? ==>
      (&& |args| > 1 && r.term == Lower(Join(args[1..], " "))
       && forall e :: e in OfDomain(states, "automation") ==> !Matches(e, r.term))
    ensures r.Service? ==>
      (&& |args| > 1 && r.domain == "automation" && r.service == "trigger"
       && (var es := OfDomain(states, "automation"); var k := FirstMatch(es, Lower(Join(args[1..], " ")));
           k.Some? && r.entityId == es[k.value].entityId))
  {
    var es := OfDomain(states, "automation");
    if |args| <= 1 then
      if |es| == 0 then NoneFound else Listed(ListingOf(es, limit))
    else
      var name := Lower(Join(args[1..], " "));
      match FirstMatch(es, name)
      case None =>
        assert forall e :: e in es ==> !Matches(e, name) by {
          forall e | e in es ensures !Matches(e, name) {
            var i :| 0 <= i < |es| && es[i] == e;
          }
        }
        NotFound(name)
      case Some(k) => Service("automation", "trigger", es[k].entityId, None)
  }

  /** With a valid action, any matching entity of the domain guarantees a
      service call, and the entity switched is that one or an earlier match. */
  lemma FirstMatchWins(states: seq<Entity>, domain: string, args: seq<string>, limit: int, i: nat)
    requires |args| > 1
    requires var es := OfDomain(states, domain);
      i < |es| && Matches(es[i], Lower(args[1]))
    requires Lower(ArgOr(args, 2, "")) == "on" || Lower(ArgOr(args, 2, "")) == "off"
    ensures ToggleCommand(states, domain, args, limit).Service?
    ensures FirstMatch(OfDomain(states, domain), Lower(args[1])).value <= i
  {
  }

  /** With a value `float()` accepts, any matching climate device guarantees a
      set_temperature call carrying that value, on that device or an earlier
      match. */
  lemma ClimateFirstMatchWins(states: seq<Entity>, args: seq<string>, parsesAsFloat: string -> bool, i: nat)
    requires |args| > 2 && args[2] != "" && parsesAsFloat(args[2])
    requires var es := OfDomain(states, "climate");
      i < |es| && Matches(es[i], Lower(args[1]))
    ensures var r := ClimateCommand(states, args, parsesAsFloat);
      r.Service? && r.service == "set_temperature" && r.temperature == Some(args[2])
    ensures FirstMatch(OfDomain(states, "climate"), Lower(args[1])).value <= i
  {
  }
}
