/** The admin gate of the SimpleX plugin and its `!admin` command. The admin
    manager lives outside this plugin, so its answers (`is_admin`,
    `list_admins`, the success of `add_admin` / `remove_admin`, the
    permissions it reports) are parameters, and the calls the command makes on
    it are recorded in the outcome. */
module SimplexAdmin {
  import opened PyText

  /** The handlers that begin with the admin check. */
  datatype Gated = Invites | Contacts | Groups | Debug | Admin | ReloadAdmin | Stats

  const DenialPrefix := "Access denied. Only admins can "

  /** What the refusal of each gated handler says the user may not do. */
  function Action(g: Gated): string {
    match g
    case Invites => "manage invites."
    case Contacts => "list contacts."
    case Groups => "list groups."
    case Debug => "use debug commands."
    case Admin => "use admin commands."
    case ReloadAdmin => "reload admin config."
    case Stats => "view stats."
  }

  /** The refusal each gated handler sends to a user who is not an admin. */
  function DenialMessage(g: Gated): (m: string)
    ensures StartsWith(m, DenialPrefix)
    ensures m[|DenialPrefix|..] == Action(g)
  {
    DenialPrefix + Action(g)
  }

  /** The opening check of a gated handler; `body` is what the rest of the
      handler would produce. */
  function Gate(isAdmin: bool, g: Gated, body: string): (reply: string)
    ensures !isAdmin ==> StartsWith(reply, DenialPrefix)
    ensures isAdmin ==> reply == body
  {
    if !isAdmin then DenialMessage(g) else body
  }

  /** A user who is not an admin gets the same refusal whatever the handler
      would have done: nothing after the check is reached. */
  lemma DeniedBeforeWork(g: Gated, body1: string, body2: string)
    ensures Gate(false, g, body1) == Gate(false, g, body2) == DenialMessage(g)
    ensures body1 != body2 ==> Gate(true, g, body1) != Gate(true, g, body2)
  {
  }

  /** Different handlers refuse with different texts. */
  lemma DenialsDistinct(g1: Gated, g2: Gated)
    requires g1 != g2
    ensures DenialMessage(g1) != DenialMessage(g2)
  {
    var a1, a2 := Action(g1), Action(g2);
    assert a1 != a2 by {
      match g1
      case Invites => assert a1[0] == 'm';
      case Contacts => assert a1[0] == 'l' && a1[5] == 'c';
      case Groups => assert a1[0] == 'l' && a1[5] == 'g';
      case Debug => assert a1[0] == 'u' && a1[4] == 'd';
      case Admin => assert a1[0] == 'u' && a1[4] == 'a';
      case ReloadAdmin => assert a1[0] == 'r';
      case Stats => assert a1[0] == 'v';
    }
  }

  /** How a permission list is shown: "all commands" when it holds the
      wildcard, the names joined by ", " otherwise. */
  function PermissionText(commands: seq<string>): (t: string)
    ensures "*" in commands ==> t == "all commands"
    ensures "*" !in commands && |commands| == 1 ==> t == commands[0]
    ensures "*" !in commands ==> forall c :: c in commands ==> Contains(t, c)
  {
    if "*" in commands then "all commands"
    else
      JoinContains(commands, ", ");
      Join(commands, ", ")
  }

  lemma {:induction false} JoinContains(xs: seq<string>, sep: string)
    ensures forall c :: c in xs ==> Contains(Join(xs, sep), c)
  {
    if |xs| > 1 {
      JoinContains(xs[1..], sep);
      var rest := Join(xs[1..], sep);
      var whole := Join(xs, sep);
      var n := |xs[0] + sep|;
      assert whole == (xs[0] + sep) + rest;
      assert OccursAt(whole, xs[0], 0);
      forall c | c in xs[1..] ensures Contains(whole, c) {
        assert Contains(rest, c);
        var i :| 0 <= i <= |rest| - |c| && OccursAt(rest, c, i);
        assert whole[n + i..n + i + |c|] == rest[i..i + |c|];
        assert OccursAt(whole, c, n + i);
      }
    } else if |xs| == 1 {
      assert Join(xs, sep) == xs[0];
      assert OccursAt(xs[0], xs[0], 0);
    }
  }

  /** What `get_user_permissions(name)` reports. */
  datatype Permissions = Permissions(isAdmin: bool, adminCommands: seq<string>, publicCommands: seq<string>)

  /** A call the command makes on the admin manager after the gate. */
  datatype ManagerCall = ListAdmins | AddAdmin(name: string) | RemoveAdmin(name: string) | GetPermissions(name: string) | ReloadConfig

  datatype AdminReply =
    | AccessDenied
    | AdminHelp
    | NoAdmins
    | AdminList(lines: seq<(string, string)>)  // each admin with the text of its permissions
    | Usage(subcommand: string)
    | Added(name: string)
    | AddFailed(name: string)
    | CannotRemoveSelf
    | Removed(name: string)
    | RemoveFailed(name: string)
    | IsAdmin(name: string, permissions: string)
    | NotAdmin(name: string, publicCommands: string)
    | Reloaded
    | UnknownSubcommand(subcommand: string)

  datatype Outcome = Outcome(reply: AdminReply, calls: seq<ManagerCall>)

  /** The admin manager's answers for one command. */
  datatype Manager = Manager(
    isAdmin: string -> bool,
    admins: seq<(string, seq<string>)>,
    addSucceeds: bool,
    removeSucceeds: bool,
    permissions: string -> Permissions)

  /** `_handle_admin_command` for `user` with the words after `!admin`. */
  function AdminCommand(user: string, args: seq<string>, m: Manager): (o: Outcome)
    ensures !m.isAdmin(user) ==> o == Outcome(AccessDenied, [])
    ensures |o.calls| <= 1
    ensures o.calls != [] ==> m.isAdmin(user) && |args| >= 1
    ensures forall n :: RemoveAdmin(n) in o.calls ==> n != user
    ensures o.reply.Removed? ==> o.calls == [RemoveAdmin(o.reply.name)] && m.removeSucceeds
    ensures o.reply.Added? ==> o.calls == [AddAdmin(o.reply.name)] && m.addSucceeds
    ensures o.reply.AdminList? ==> (|o.reply.lines| == |m.admins| > 0
      && forall i :: 0 <= i < |m.admins| ==> o.reply.lines[i] == (m.admins[i].0, PermissionText(m.admins[i].1)))
    ensures m.isAdmin(user) && |args| == 0 ==> o == Outcome(AdminHelp, [])
    ensures m.isAdmin(user) && |args| >= 1 && Lower(args[0]) == "list" ==>
      && o.calls == [ListAdmins]
      && (o.reply.NoAdmins? || o.reply.AdminList?)
      && (o.reply.NoAdmins? <==> m.admins == [])
    ensures m.isAdmin(user) && |args| == 1 && Lower(args[0]) in ["add", "remove", "permissions"] ==>
      o == Outcome(Usage(Lower(args[0])), [])
    ensures m.isAdmin(user) && |args| >= 2 && Lower(args[0]) == "add" ==>
      && o.calls == [AddAdmin(args[1])]
      && (m.addSucceeds ==> o.reply == Added(args[1]))
      && (!m.addSucceeds ==> o.reply == AddFailed(args[1]))
    ensures m.isAdmin(user) && |args| >= 2 && Lower(args[0]) == "remove" && args[1] != user ==>
      && o.calls == [RemoveAdmin(args[1])]
      && (m.removeSucceeds ==> o.reply == Removed(args[1]))
      && (!m.removeSucceeds ==> o.reply == RemoveFailed(args[1]))
    ensures m.isAdmin(user) && |args| >= 2 && Lower(args[0]) == "permissions" ==>
      (var p := m.permissions(args[1]);
       && o.calls == [GetPermissions(args[1])]
       && (p.isAdmin ==> o.reply == IsAdmin(args[1], PermissionText(p.adminCommands)))
       && (!p.isAdmin ==> o.reply == NotAdmin(args[1], Join(p.publicCommands, ", "))))
    ensures m.isAdmin(user) && |args| >= 1 && Lower(args[0]) == "reload" ==> o == Outcome(Reloaded, [ReloadConfig])
    ensures m.isAdmin(user) && |args| >= 1 && Lower(args[0]) !in ["list", "add", "remove", "permissions", "reload"] ==>
      o == Outcome(UnknownSubcommand(Lower(args[0])), [])
  {
    if !m.isAdmin(user) then Outcome(AccessDenied, [])
    else if |args| == 0 then Outcome(AdminHelp, [])
    else
      var sub := Lower(args[0]);
      if sub == "list" then
        if |m.admins| == 0 then Outcome(NoAdmins, [ListAdmins])
        else
          var lines := seq(|m.admins|, i requires 0 <= i < |m.admins| => (m.admins[i].0, PermissionText(m.admins[i].1)));
          Outcome(AdminList(lines), [ListAdmins])
      else if sub == "add" then
        if |args| < 2 then Outcome(Usage("add"), [])
        else if m.addSucceeds then Outcome(Added(args[1]), [AddAdmin(args[1])])
        else Outcome(AddFailed(args[1]), [AddAdmin(args[1])])
      else if sub == "remove" then
        if |args| < 2 then Outcome(Usage("remove"), [])
        else if args[1] == user then Outcome(CannotRemoveSelf, [])
        else if m.removeSucceeds then Outcome(Removed(args[1]), [RemoveAdmin(args[1])])
        else Outcome(RemoveFailed(args[1]), [RemoveAdmin(args[1])])
      else if sub == "permissions" then
        if |args| < 2 then Outcome(Usage("permissions"), [])
        else
          var p := m.permissions(args[1]);
          if p.isAdmin then Outcome(IsAdmin(args[1], PermissionText(p.adminCommands)), [GetPermissions(args[1])])
          else Outcome(NotAdmin(args[1], Join(p.publicCommands, ", ")), [GetPermissions(args[1])])
      else if sub == "reload" then Outcome(Reloaded, [ReloadConfig])
      else Outcome(UnknownSubcommand(sub), [])
  }

  /** An admin asking to remove themself is refused and the manager is not
      called, whatever it would have answered; removing anyone else reaches
      the manager. */
  lemma SelfRemovalRefused(user: string, args: seq<string>, m: Manager)
    requires m.isAdmin(user)
    requires |args| >= 2 && Lower(args[0]) == "remove"
    ensures args[1] == user <==> AdminCommand(user, args, m) == Outcome(CannotRemoveSelf, [])
    ensures args[1] != user ==> AdminCommand(user, args, m).calls == [RemoveAdmin(args[1])]
  {
  }
}
