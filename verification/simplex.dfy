/** The parsers the SimpleX plugin applies to the CLI's JSON replies. A reply
    is an envelope `{"resp": {"Right": …}}` on success or `{"resp": {"Left": …}}`
    on error. Every exception inside a parser is caught and turned into the
    parser's default, so each parser is total. */
module SimplexParsers {
  import opened PyText
  import opened Json

  /** `response.get('resp', {})` when the response is a dict. */
  function Resp(response: Value): (resp: Value)
    requires response.Object?
  {
    Get(response.fields, "resp").GetOr(Object([]))
  }

  /** `resp['Right']` after `'Right' in resp` held; None where the test or the
      subscript raises, or where `Right` is absent. */
  function RightOf(response: Value): (r: Option<Value>)
    ensures r == At(response, ["resp", "Right"])
  {
    if !response.Object? then None
    else
      var resp := Resp(response);
      match PyIn("Right", resp)
      case Some(true) =>
        (match PySubscript(resp, "Right")
         case Found(a) => Some(a)
         case _ => None)  // `'Right' in` held on a str or a list: the subscript raises
      case _ => None  // a TypeError, or no `Right`: the `Left` branch and the fallthrough both end in the default
  }

  /** A path below `Right` is read inside the `Right` value. */
  lemma AtRight(response: Value, key: string)
    ensures At(response, ["resp", "Right", key]) == (match RightOf(response) case Some(a) => At(a, [key]) case None => None)
  {
    assert ["resp", "Right", key][1..] == ["Right", key];
    assert ["Right", key][1..] == [key];
    assert ["resp", "Right"][1..] == ["Right"];
  }

  /** The body shared by `_parse_contacts_response` and `_parse_groups_response`:
      the `field` value of a `Right` object whose `type` is `tag`, else []. The
      value is logged with `len()` before it is returned, so a null, a bool or
      a number raises a TypeError there, which the handler turns into []. */
  function ParseList(response: Value, tag: string, field: string): (r: Value)
    ensures HasLen(r)
    ensures At(response, ["resp", "Right", "type"]) == Some(Str(tag)) && At(response, ["resp", "Right", field]).Some?
      && HasLen(At(response, ["resp", "Right", field]).value)
      ==> r == At(response, ["resp", "Right", field]).value
    ensures At(response, ["resp", "Right", field]).Some? && !HasLen(At(response, ["resp", "Right", field]).value)
      ==> r == List([])
    ensures At(response, ["resp", "Right", "type"]) != Some(Str(tag)) ==> r == List([])
    ensures At(response, ["resp", "Right", field]).None? ==> r == List([])
  {
    AtRight(response, "type");
    AtRight(response, field);
    match RightOf(response)
    case Some(a) =>
      if a.Object? && Get(a.fields, "type") == Some(Str(tag)) then
        var v := Get(a.fields, field).GetOr(List([]));
        if HasLen(v) then v else List([])
      else List([])
    case None => List([])
  }

  /** `_parse_contacts_response` */
  function ParseContacts(response: Value): (r: Value)
    ensures HasLen(r)
    ensures At(response, ["resp", "Right", "type"]) == Some(Str("contactsList")) && At(response, ["resp", "Right", "contacts"]).Some?
      && HasLen(At(response, ["resp", "Right", "contacts"]).value)
      ==> r == At(response, ["resp", "Right", "contacts"]).value
    ensures At(response, ["resp", "Right", "contacts"]).Some? && !HasLen(At(response, ["resp", "Right", "contacts"]).value)
      ==> r == List([])
    ensures At(response, ["resp", "Right", "type"]) != Some(Str("contactsList")) ==> r == List([])
    ensures At(response, ["resp", "Right", "contacts"]).None? ==> r == List([])
  {
    ParseList(response, "contactsList", "contacts")
  }

  /** `_parse_groups_response` */
  function ParseGroups(response: Value): (r: Value)
    ensures HasLen(r)
    ensures At(response, ["resp", "Right", "type"]) == Some(Str("groupsList")) && At(response, ["resp", "Right", "groups"]).Some?
      && HasLen(At(response, ["resp", "Right", "groups"]).value)
      ==> r == At(response, ["resp", "Right", "groups"]).value
    ensures At(response, ["resp", "Right", "groups"]).Some? && !HasLen(At(response, ["resp", "Right", "groups"]).value)
      ==> r == List([])
    ensures At(response, ["resp", "Right", "type"]) != Some(Str("groupsList")) ==> r == List([])
    ensures At(response, ["resp", "Right", "groups"]).None? ==> r == List([])
  {
    ParseList(response, "groupsList", "groups")
  }

  /** The body shared by the two info parsers: the value under `wrapper` in
      the `Right` object; failing that the `Right` object itself when it holds
      `marker`; else None. */
  function ParseInfo(response: Value, wrapper: string, marker: string): (r: Option<Value>)
    ensures At(response, ["resp", "Right", wrapper]).Some? ==> r == At(response, ["resp", "Right", wrapper])
    ensures At(response, ["resp", "Right", wrapper]).None? && At(response, ["resp", "Right", marker]).Some?
      ==> r == At(response, ["resp", "Right"])
    ensures At(response, ["resp", "Right", wrapper]).None? && At(response, ["resp", "Right", marker]).None?
      ==> r == None
  {
    AtRight(response, wrapper);
    AtRight(response, marker);
    match RightOf(response)
    case Some(a) =>
      (match PyIn(wrapper, a)
       case Some(true) =>
         (match PySubscript(a, wrapper)
          case Found(w) => Some(w)
          case _ => None)  // a substring or list hit on a non-dict: the subscript raises
       case Some(false) => if a.Object? && HasKey(a.fields, marker) then Some(a) else None
       case None => None)  // `in` raised a TypeError
    case None => None
  }

  /** `_parse_contact_info_response` */
  function ParseContactInfo(response: Value): (r: Option<Value>)
    ensures At(response, ["resp", "Right", "contact"]).Some? ==> r == At(response, ["resp", "Right", "contact"])
    ensures At(response, ["resp", "Right", "contact"]).None? && At(response, ["resp", "Right", "localDisplayName"]).Some?
      ==> r == At(response, ["resp", "Right"])
    ensures At(response, ["resp", "Right", "contact"]).None? && At(response, ["resp", "Right", "localDisplayName"]).None?
      ==> r == None
  {
    ParseInfo(response, "contact", "localDisplayName")
  }

  /** `_parse_group_info_response` */
  function ParseGroupInfo(response: Value): (r: Option<Value>)
    ensures At(response, ["resp", "Right", "group"]).Some? ==> r == At(response, ["resp", "Right", "group"])
    ensures At(response, ["resp", "Right", "group"]).None? && At(response, ["resp", "Right", "displayName"]).Some?
      ==> r == At(response, ["resp", "Right"])
    ensures At(response, ["resp", "Right", "group"]).None? && At(response, ["resp", "Right", "displayName"]).None?
      ==> r == None
  {
    ParseInfo(response, "group", "displayName")
  }

  /** A contacts list that is `null` fails the `len()` in the log line, and
      the parser returns []. */
  lemma NullContactsAreEmpty()
    ensures var right := Object([("type", Str("contactsList")), ("contacts", Null)]);
      ParseContacts(Object([("resp", Object([("Right", right)]))])) == List([])
  {
    var right := Object([("type", Str("contactsList")), ("contacts", Null)]);
    var resp := Object([("Right", right)]);
    var response := Object([("resp", resp)]);
    assert Get(response.fields, "resp") == Some(resp);
    assert Get(resp.fields, "Right") == Some(right);
    assert Get(right.fields, "type") == Some(Str("contactsList"));
    assert Get(right.fields, "contacts") == Some(Null) by {
      assert right.fields[1..] == [("contacts", Null)];
    }
    var path := ["resp", "Right", "contacts"];
    assert path[1..] == ["Right", "contacts"] && path[1..][1..] == ["contacts"] && path[1..][1..][1..] == [];
    assert At(response, path) == Some(Null);
  }

  /** A reply whose `resp` is `{"Left": error}` alone parses to the defaults. */
  lemma LeftYieldsDefaults(error: Value, rest: Fields)
    ensures var response := Object([("resp", Object([("Left", error)]))] + rest);
      && ParseContacts(response) == List([])
      && ParseGroups(response) == List([])
      && ParseContactInfo(response) == None
      && ParseGroupInfo(response) == None
      && ParseInviteLink(response) == None
  {
    var response := Object([("resp", Object([("Left", error)]))] + rest);
    assert Get(response.fields, "resp") == Some(Object([("Left", error)]));
    assert RightOf(response) == None;
  }

  /** `Right` is read before `Left`: once `resp` holds `Right`, the parsers
      see only its value, wherever `Left` sits and whatever else is there. */
  lemma RightBeforeLeft(response: Value)
    requires RightOf(response).Some?
    ensures var only := Object([("resp", Object([("Right", RightOf(response).value)]))]);
      && ParseContacts(response) == ParseContacts(only)
      && ParseGroups(response) == ParseGroups(only)
      && ParseContactInfo(response) == ParseContactInfo(only)
      && ParseGroupInfo(response) == ParseGroupInfo(only)
      && ParseInviteLink(response) == ParseInviteLink(only)
  {
    var only := Object([("resp", Object([("Right", RightOf(response).value)]))]);
    assert Get(only.fields, "resp") == Some(Object([("Right", RightOf(response).value)]));
    assert Get(Object([("Right", RightOf(response).value)]).fields, "Right") == Some(RightOf(response).value);
    assert RightOf(only) == RightOf(response);
    ListSeesRight(response, only, "contactsList", "contacts");
    ListSeesRight(response, only, "groupsList", "groups");
    InfoSeesRight(response, only, "contact", "localDisplayName");
    InfoSeesRight(response, only, "group", "displayName");
  }

  /** The list parsers read nothing but the `Right` value. */
  lemma ListSeesRight(r1: Value, r2: Value, tag: string, field: string)
    requires RightOf(r1) == RightOf(r2)
    ensures ParseList(r1, tag, field) == ParseList(r2, tag, field)
  {
  }

  /** The info parsers read nothing but the `Right` value. */
  lemma InfoSeesRight(r1: Value, r2: Value, wrapper: string, marker: string)
    requires RightOf(r1) == RightOf(r2)
    ensures ParseInfo(r1, wrapper, marker) == ParseInfo(r2, wrapper, marker)
  {
  }

  const InvitationPrefix := "https://simplex.chat/invitation"

  /** The longest prefix of `s` without whitespace (`[^\s]*`). */
  function TakeNonSpace(s: string): (r: string)
    ensures |r| <= |s| && r == s[..|r|]
    ensures forall i :: 0 <= i < |r| ==> !IsSpace(r[i])
    ensures |r| == |s| || IsSpace(s[|r|])
  {
    if |s| == 0 || IsSpace(s[0]) then ""
    else [s[0]] + TakeNonSpace(s[1..])
  }

  /** `re.search(r'https://simplex\.chat/invitation[^\s]*', s).group(0)` */
  function LinkIn(s: string): (link: string)
    requires Contains(s, InvitationPrefix)
    ensures StartsWith(link, InvitationPrefix)
    ensures forall i :: 0 <= i < |link| ==> !IsSpace(link[i])
    ensures OccursAt(s, link, Find(s, InvitationPrefix))
    ensures Find(s, InvitationPrefix) + |link| == |s| || IsSpace(s[Find(s, InvitationPrefix) + |link|])
  {
    var k := Find(s, InvitationPrefix);
    var tail := TakeNonSpace(s[k + |InvitationPrefix|..]);
    PrefixHasNoSpace();
    PrefixThenRun(s, InvitationPrefix, k);
    InvitationPrefix + tail
  }

  /** The text that starts at an occurrence of `p` and runs to the next
      whitespace: it starts with `p`, occurs there, and stops at whitespace or
      at the end. */
  lemma PrefixThenRun(s: string, p: string, k: nat)
    requires OccursAt(s, p, k)
    requires forall i :: 0 <= i < |p| ==> !IsSpace(p[i])
    ensures var link := p + TakeNonSpace(s[k + |p|..]);
      && StartsWith(link, p)
      && (forall i :: 0 <= i < |link| ==> !IsSpace(link[i]))
      && OccursAt(s, link, k)
      && (k + |link| == |s| || IsSpace(s[k + |link|]))
  {
    var rest := s[k + |p|..];
    var tail := TakeNonSpace(rest);
    var link := p + tail;
    assert link[..|p|] == p;
    AppendNoSpace(p, tail);
    assert s[k..k + |link|] == s[k..k + |p|] + rest[..|tail|];
    if |tail| < |rest| {
      assert s[k + |link|] == rest[|tail|];
    }
  }

  lemma PrefixHasNoSpace()
    ensures forall i :: 0 <= i < |InvitationPrefix| ==> !IsSpace(InvitationPrefix[i])
  {
  }

  lemma AppendNoSpace(a: string, b: string)
    requires forall i :: 0 <= i < |a| ==> !IsSpace(a[i])
    requires forall i :: 0 <= i < |b| ==> !IsSpace(b[i])
    ensures forall i :: 0 <= i < |a + b| ==> !IsSpace((a + b)[i])
  {
    forall i | 0 <= i < |a + b| ensures !IsSpace((a + b)[i]) {
      if i >= |a| {
        assert (a + b)[i] == b[i - |a|];
      }
    }
  }

  /** Extracting the link again from a bare link gives it back. */
  lemma {:induction false} LinkInIdempotent(s: string)
    requires Contains(s, InvitationPrefix)
    ensures Contains(LinkIn(s), InvitationPrefix)
    ensures LinkIn(LinkIn(s)) == LinkIn(s)
  {
    var link := LinkIn(s);
    assert OccursAt(link, InvitationPrefix, 0);
    assert Find(link, InvitationPrefix) == 0;
    NoSpaceTaken(link[|InvitationPrefix|..]);
    assert link == InvitationPrefix + link[|InvitationPrefix|..];
  }

  lemma {:induction false} NoSpaceTaken(s: string)
    requires forall i :: 0 <= i < |s| ==> !IsSpace(s[i])
    ensures TakeNonSpace(s) == s
  {
    if |s| > 0 {
      NoSpaceTaken(s[1..]);
    }
  }

  /** The field value a link is taken from: a string holding the prefix. */
  predicate HoldsLink(v: Value) {
    v.Str? && Contains(v.s, InvitationPrefix)
  }

  /** The loop over `actual_resp.items()`: the link of the first string field
      that holds the prefix, in field order. */
  function FirstLinkField(fields: Fields): (r: Option<string>)
    ensures r.Some? <==> exists i :: 0 <= i < |fields| && HoldsLink(fields[i].1)
    ensures r.Some? ==> exists i :: (0 <= i < |fields| && HoldsLink(fields[i].1)
      && r.value == LinkIn(fields[i].1.s)
      && forall j :: 0 <= j < i ==> !HoldsLink(fields[j].1))
  {
    match FirstLinkFrom(fields, 0)
    case Some(i) => Some(LinkIn(fields[i].1.s))
    case None => None
  }

  /** The first field at or after `from` that holds a link. */
  function FirstLinkFrom(fields: Fields, from: nat): (k: Option<nat>)
    requires from <= |fields|
    ensures k.Some? ==> (from <= k.value < |fields| && HoldsLink(fields[k.value].1)
      && forall j :: from <= j < k.value ==> !HoldsLink(fields[j].1))
    ensures k.None? ==> forall j :: from <= j < |fields| ==> !HoldsLink(fields[j].1)
    decreases |fields| - from
  {
    if from == |fields| then None
    else if HoldsLink(fields[from].1) then Some(from)
    else FirstLinkFrom(fields, from + 1)
  }

  /** `_parse_group_invite_response` */
  function ParseInviteLink(response: Value): (r: Option<string>)
    ensures r.Some? ==> StartsWith(r.value, InvitationPrefix)
    ensures r.Some? ==> forall i :: 0 <= i < |r.value| ==> !IsSpace(r.value[i])
    ensures (match At(response, ["resp", "Right"])
      case Some(Str(s)) => (r.Some? <==> Contains(s, InvitationPrefix)) && (r.Some? ==> r.value == LinkIn(s))
      case Some(Object(fields)) => r == FirstLinkField(fields)
      case _ => r == None)
  {
    match RightOf(response)
    case Some(Str(s)) => if Contains(s, InvitationPrefix) then Some(LinkIn(s)) else None
    case Some(Object(fields)) =>
      FieldLinkIsLink(fields);
      FirstLinkField(fields)
    case _ => None
  }

  /** A link found in a field starts with the prefix and holds no whitespace. */
  lemma FieldLinkIsLink(fields: Fields)
    ensures var r := FirstLinkField(fields);
      r.Some? ==> StartsWith(r.value, InvitationPrefix) && forall i :: 0 <= i < |r.value| ==> !IsSpace(r.value[i])
  {
    var r := FirstLinkField(fields);
    if r.Some? {
      var i :| 0 <= i < |fields| && HoldsLink(fields[i].1) && r.value == LinkIn(fields[i].1.s)
        && forall j :: 0 <= j < i ==> !HoldsLink(fields[j].1);
    }
  }
}
