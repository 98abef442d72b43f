/**
 * Permission resolution of a channel: how the channel's permission overrides
 * modify a user's or a role's guild-wide permissions.
 *
 * Everything here is a pure function of the override maps and of the facts the
 * guild supplies (a member's roles and guild permissions, a role's base set,
 * the owner's id). The loops of the Java code are in channel.dfy and are
 * proved equal to these functions.
 */
module Permissions {
  import opened Wrappers

  /** The permission flags of the platform. */
  datatype Permission =
    | CreateInvite | Kick | Ban | Administrator | ManageChannel | ManageChannels | ManageServer
    | AddReactions | ReadMessages | SendMessages | SendTtsMessages | ManageMessages | EmbedLinks
    | AttachFiles | ReadMessageHistory | MentionEveryone | UseExternalEmojis | VoiceConnect
    | VoiceSpeak | VoiceMuteMembers | VoiceDeafenMembers | VoiceMoveMembers | VoiceUseVad
    | ChangeNickname | ManageNicknames | ManageRoles | ManagePermissions | ManageWebhooks
    | ManageEmojis

  /** `EnumSet.allOf(Permissions.class)`. */
  function AllPermissions(): (all: set<Permission>)
    ensures forall p: Permission :: p in all
  {
    var all := {CreateInvite, Kick, Ban, Administrator, ManageChannel, ManageChannels, ManageServer,
                AddReactions, ReadMessages, SendMessages, SendTtsMessages, ManageMessages, EmbedLinks,
                AttachFiles, ReadMessageHistory, MentionEveryone, UseExternalEmojis, VoiceConnect,
                VoiceSpeak, VoiceMuteMembers, VoiceDeafenMembers, VoiceMoveMembers, VoiceUseVad,
                ChangeNickname, ManageNicknames, ManageRoles, ManagePermissions, ManageWebhooks,
                ManageEmojis};
    assert forall p: Permission :: p in all by {
      forall p: Permission ensures p in all {
        PermissionListed(p);
      }
    }
    all
  }

  /** Every flag is one of the constructors listed in `AllPermissions`. */
  lemma PermissionListed(p: Permission)
    ensures p in {CreateInvite, Kick, Ban, Administrator, ManageChannel, ManageChannels, ManageServer,
                  AddReactions, ReadMessages, SendMessages, SendTtsMessages, ManageMessages, EmbedLinks,
                  AttachFiles, ReadMessageHistory, MentionEveryone, UseExternalEmojis, VoiceConnect,
                  VoiceSpeak, VoiceMuteMembers, VoiceDeafenMembers, VoiceMoveMembers, VoiceUseVad,
                  ChangeNickname, ManageNicknames, ManageRoles, ManagePermissions, ManageWebhooks,
                  ManageEmojis}
  {
    match p
    case CreateInvite => case Kick => case Ban => case Administrator => case ManageChannel =>
    case ManageChannels => case ManageServer => case AddReactions => case ReadMessages =>
    case SendMessages => case SendTtsMessages => case ManageMessages => case EmbedLinks =>
    case AttachFiles => case ReadMessageHistory => case MentionEveryone => case UseExternalEmojis =>
    case VoiceConnect => case VoiceSpeak => case VoiceMuteMembers => case VoiceDeafenMembers =>
    case VoiceMoveMembers => case VoiceUseVad => case ChangeNickname => case ManageNicknames =>
    case ManageRoles => case ManagePermissions => case ManageWebhooks => case ManageEmojis =>
  }

  /** A channel-level override: permissions explicitly granted and explicitly revoked.
      The two sets may overlap; nothing here rejects that. */
  datatype PermissionOverride = PermissionOverride(allow: set<Permission>, deny: set<Permission>)

  /** What the guild says about a user: their id, their roles in the guild's
      order, and their guild-wide permissions. */
  datatype Member = Member(id: string, roles: seq<string>, guildPermissions: set<Permission>)

  /** What the guild says about a role: its id and its base permission set. */
  datatype Role = Role(id: string, permissions: set<Permission>)

  /** One override applied to a running set: its allow-set is added first,
      then its deny-set is removed, so a flag in both ends up denied. */
  function ApplyOverride(perms: set<Permission>, o: PermissionOverride): (r: set<Permission>)
    ensures forall p :: p in o.deny ==> p !in r
    ensures forall p :: p in o.allow && p !in o.deny ==> p in r
    ensures forall p :: p !in o.allow && p !in o.deny ==> (p in r <==> p in perms)
  {
    (perms + o.allow) - o.deny
  }

  /** The overrides of `os` applied one after another, first to last. */
  function ApplyAll(perms: set<Permission>, os: seq<PermissionOverride>): set<Permission>
    decreases |os|
  {
    if os == [] then perms
    else ApplyOverride(ApplyAll(perms, os[..|os| - 1]), os[|os| - 1])
  }

  /** A flag ends up granted only if it was granted before or some override allows
      it, and a flag granted before stays granted unless some override denies it. */
  lemma {:induction false} ApplyAllBounds(perms: set<Permission>, os: seq<PermissionOverride>, p: Permission)
    ensures p in ApplyAll(perms, os) ==> p in perms || exists k :: 0 <= k < |os| && p in os[k].allow
    ensures p in perms && (forall k :: 0 <= k < |os| ==> p !in os[k].deny) ==> p in ApplyAll(perms, os)
    decreases |os|
  {
    if os != [] {
      var init := os[..|os| - 1];
      ApplyAllBounds(perms, init, p);
      if p in ApplyAll(perms, init) && p !in perms {
        var k :| 0 <= k < |init| && p in init[k].allow;
        assert os[k] == init[k];
      }
      if p in perms && (forall k :: 0 <= k < |os| ==> p !in os[k].deny) {
        assert forall k :: 0 <= k < |init| ==> init[k] == os[k];
      }
    }
  }

  /** Reference definition, flag by flag: the LAST override of `os` that mentions
      `p` decides it (`Some(false)` when it denies `p`, `Some(true)` when it only
      allows it); `None` when no override mentions `p`. */
  function LastSay(os: seq<PermissionOverride>, p: Permission): Option<bool>
    decreases |os|
  {
    if os == [] then None
    else if p in os[|os| - 1].deny then Some(false)
    else if p in os[|os| - 1].allow then Some(true)
    else LastSay(os[..|os| - 1], p)
  }

  /** The same, reading `os` from the front: the FIRST override that mentions `p` decides. */
  function FirstSay(os: seq<PermissionOverride>, p: Permission): Option<bool>
    decreases |os|
  {
    if os == [] then None
    else if p in os[0].deny then Some(false)
    else if p in os[0].allow then Some(true)
    else FirstSay(os[1..], p)
  }

  /** Applying overrides in sequence is "the last one to mention a flag decides it". */
  lemma {:induction false} ApplyAllLastSayDecides(perms: set<Permission>, os: seq<PermissionOverride>, p: Permission)
    ensures p in ApplyAll(perms, os) <==> match LastSay(os, p) { case None => p in perms case Some(b) => b }
    decreases |os|
  {
    if os != [] {
      ApplyAllLastSayDecides(perms, os[..|os| - 1], p);
    }
  }

  /** `Collections.reverse`. */
  function Reverse<T>(s: seq<T>): (r: seq<T>)
    ensures |r| == |s|
    ensures forall i :: 0 <= i < |s| ==> r[i] == s[|s| - 1 - i]
  {
    if s == [] then [] else Reverse(s[1..]) + [s[0]]
  }

  /** The last override of the reversed list to mention a flag is the first of the original list. */
  lemma {:induction false} LastSayOfReverse(os: seq<PermissionOverride>, p: Permission)
    ensures LastSay(Reverse(os), p) == FirstSay(os, p)
    decreases |os|
  {
    if os != [] {
      var r := Reverse(os);
      assert r[..|r| - 1] == Reverse(os[1..]);
      LastSayOfReverse(os[1..], p);
    }
  }

  /** The role-override stream of `getModifiedPermissions(IUser)`: the overrides of
      the member's roles that have one, in the member's role order. */
  function RoleOverridesFor(roles: seq<string>, roleOverrides: map<string, PermissionOverride>): (os: seq<PermissionOverride>)
    ensures |os| <= |roles|
    ensures forall o :: o in os ==> o in roleOverrides.Values
    ensures (forall r :: r in roles ==> r !in roleOverrides) ==> os == []
  {
    if roles == [] then []
    else (if roles[0] in roleOverrides then [roleOverrides[roles[0]]] else [])
         + RoleOverridesFor(roles[1..], roleOverrides)
  }

  /** Reference definition over the member's role list: the first listed role
      whose override mentions `p` decides it. */
  function RoleSay(roles: seq<string>, roleOverrides: map<string, PermissionOverride>, p: Permission): Option<bool>
    decreases |roles|
  {
    if roles == [] then None
    else if roles[0] in roleOverrides && p in roleOverrides[roles[0]].deny then Some(false)
    else if roles[0] in roleOverrides && p in roleOverrides[roles[0]].allow then Some(true)
    else RoleSay(roles[1..], roleOverrides, p)
  }

  lemma {:induction false} FirstSayOfRoleOverrides(roles: seq<string>, roleOverrides: map<string, PermissionOverride>, p: Permission)
    ensures FirstSay(RoleOverridesFor(roles, roleOverrides), p) == RoleSay(roles, roleOverrides, p)
    decreases |roles|
  {
    if roles != [] {
      FirstSayOfRoleOverrides(roles[1..], roleOverrides, p);
      var tail := RoleOverridesFor(roles[1..], roleOverrides);
      if roles[0] in roleOverrides {
        assert RoleOverridesFor(roles, roleOverrides) == [roleOverrides[roles[0]]] + tail;
        assert ([roleOverrides[roles[0]]] + tail)[1..] == tail;
      } else {
        assert RoleOverridesFor(roles, roleOverrides) == tail;
      }
    }
  }

  /** `getModifiedPermissions(IUser)`: a private channel or the guild owner gets every
      permission; otherwise the guild permissions, then the role overrides in reverse
      of the member's role list, then the member's own override. */
  function ResolveUser(isPrivate: bool, guildOwnerId: string, member: Member,
                       userOverrides: map<string, PermissionOverride>,
                       roleOverrides: map<string, PermissionOverride>): (perms: set<Permission>)
    ensures isPrivate || guildOwnerId == member.id ==> forall p: Permission :: p in perms
  {
    if isPrivate || guildOwnerId == member.id then AllPermissions()
    else
      var afterRoles := ApplyAll(member.guildPermissions, Reverse(RoleOverridesFor(member.roles, roleOverrides)));
      if member.id in userOverrides then ApplyOverride(afterRoles, userOverrides[member.id])
      else afterRoles
  }

  /** Precedence of user resolution, flag by flag: the member's own override has the
      last word (deny before allow); then the FIRST role of the member's list whose
      override mentions the flag; then the guild permission. */
  lemma ResolveUserPrecedence(isPrivate: bool, guildOwnerId: string, member: Member,
                              userOverrides: map<string, PermissionOverride>,
                              roleOverrides: map<string, PermissionOverride>, p: Permission)
    requires !isPrivate && guildOwnerId != member.id
    ensures p in ResolveUser(isPrivate, guildOwnerId, member, userOverrides, roleOverrides) <==>
      if member.id in userOverrides && p in userOverrides[member.id].deny then false
      else if member.id in userOverrides && p in userOverrides[member.id].allow then true
      else match RoleSay(member.roles, roleOverrides, p) {
        case Some(b) => b
        case None => p in member.guildPermissions
      }
  {
    var os := RoleOverridesFor(member.roles, roleOverrides);
    ApplyAllLastSayDecides(member.guildPermissions, Reverse(os), p);
    LastSayOfReverse(os, p);
    FirstSayOfRoleOverrides(member.roles, roleOverrides, p);
  }

  /** After `addUserOverride(member, o)` the new override decides every flag it
      mentions, and every other flag resolves as it would with no override of the
      member's own. */
  lemma PutUserOverrideDecides(isPrivate: bool, guildOwnerId: string, member: Member,
                               userOverrides: map<string, PermissionOverride>,
                               roleOverrides: map<string, PermissionOverride>, o: PermissionOverride, p: Permission)
    requires !isPrivate && guildOwnerId != member.id
    ensures var perms := ResolveUser(isPrivate, guildOwnerId, member, userOverrides[member.id := o], roleOverrides);
      && (p in o.deny ==> p !in perms)
      && (p in o.allow && p !in o.deny ==> p in perms)
      && (p !in o.allow && p !in o.deny ==>
            (p in perms <==> p in ResolveUser(isPrivate, guildOwnerId, member, userOverrides - {member.id}, roleOverrides)))
  {
    ResolveUserPrecedence(isPrivate, guildOwnerId, member, userOverrides[member.id := o], roleOverrides, p);
    ResolveUserPrecedence(isPrivate, guildOwnerId, member, userOverrides - {member.id}, roleOverrides, p);
  }

  /** With no override for the member nor for any of their roles, the guild
      permissions come through unchanged. */
  lemma NoOverridesKeepsGuildPermissions(isPrivate: bool, guildOwnerId: string, member: Member,
                                         userOverrides: map<string, PermissionOverride>,
                                         roleOverrides: map<string, PermissionOverride>)
    requires !isPrivate && guildOwnerId != member.id
    requires member.id !in userOverrides
    requires forall r :: r in member.roles ==> r !in roleOverrides
    ensures ResolveUser(isPrivate, guildOwnerId, member, userOverrides, roleOverrides) == member.guildPermissions
  {
    assert RoleOverridesFor(member.roles, roleOverrides) == [];
    assert Reverse<PermissionOverride>([]) == [];
  }

  /** `getModifiedPermissions(IRole)`: the role's own override, else the @everyone
      override, else the base set unchanged. */
  function ResolveRole(role: Role, everyoneRoleId: string,
                       roleOverrides: map<string, PermissionOverride>): (perms: set<Permission>)
    ensures role.id in roleOverrides ==> perms == ApplyOverride(role.permissions, roleOverrides[role.id])
    ensures role.id !in roleOverrides && everyoneRoleId in roleOverrides ==>
              perms == ApplyOverride(role.permissions, roleOverrides[everyoneRoleId])
    ensures role.id !in roleOverrides && everyoneRoleId !in roleOverrides ==> perms == role.permissions
  {
    if role.id in roleOverrides then ApplyOverride(role.permissions, roleOverrides[role.id])
    else if everyoneRoleId in roleOverrides then ApplyOverride(role.permissions, roleOverrides[everyoneRoleId])
    else role.permissions
  }

  /** Cross-check of the two resolvers: a role with its own override resolves to what a
      non-owner member holding only that role, with the role's base set as guild
      permissions and no override of their own, resolves to. */
  lemma RoleAgreesWithSingleRoleMember(role: Role, everyoneRoleId: string, memberId: string, guildOwnerId: string,
                                       userOverrides: map<string, PermissionOverride>,
                                       roleOverrides: map<string, PermissionOverride>)
    requires role.id in roleOverrides
    requires memberId != guildOwnerId && memberId !in userOverrides
    ensures ResolveRole(role, everyoneRoleId, roleOverrides)
         == ResolveUser(false, guildOwnerId, Member(memberId, [role.id], role.permissions), userOverrides, roleOverrides)
  {
    var o := roleOverrides[role.id];
    assert RoleOverridesFor([role.id], roleOverrides) == [o];
    assert Reverse([o]) == [o];
    assert ApplyAll(role.permissions, [o]) == ApplyOverride(ApplyAll(role.permissions, []), o);
  }

  /** A worked example of role precedence: a member whose role list is
      ["high", "low"], with SEND_MESSAGES from the guild, a "low" override that
      allows EMBED_LINKS and a "high" override that denies SEND_MESSAGES, ends up
      with EMBED_LINKS only ("high" is applied after "low"). */
  lemma RolePrecedenceExample()
    ensures ResolveUser(false, "owner", Member("member", ["high", "low"], {SendMessages}), map[],
                        map["low" := PermissionOverride({EmbedLinks}, {}),
                            "high" := PermissionOverride({}, {SendMessages})])
         == {EmbedLinks}
  {
    var ro := map["low" := PermissionOverride({EmbedLinks}, {}), "high" := PermissionOverride({}, {SendMessages})];
    var m := Member("member", ["high", "low"], {SendMessages});
    forall p: Permission
      ensures p in ResolveUser(false, "owner", m, map[], ro) <==> p == EmbedLinks
    {
      ResolveUserPrecedence(false, "owner", m, map[], ro, p);
      ExampleRoleSay(ro, p);
    }
  }

  /** The example's roles, flag by flag: "high" denies SEND_MESSAGES, "low" allows
      EMBED_LINKS, and nothing else is mentioned. */
  lemma ExampleRoleSay(ro: map<string, PermissionOverride>, p: Permission)
    requires ro == map["low" := PermissionOverride({EmbedLinks}, {}), "high" := PermissionOverride({}, {SendMessages})]
    ensures RoleSay(["high", "low"], ro, p)
         == if p == SendMessages then Some(false) else if p == EmbedLinks then Some(true) else None
  {
    var roles := ["high", "low"];
    assert roles[1..] == ["low"] && roles[1..][1..] == [];
    assert "high" in ro && ro["high"] == PermissionOverride({}, {SendMessages});
    assert "low" in ro && ro["low"] == PermissionOverride({EmbedLinks}, {});
  }
}
