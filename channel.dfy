/**
 * A guild or private channel as the client caches it: its permission-override
 * maps, its webhook list and its typing flag, with the methods that read and
 * update them. The REST calls these methods make are replaced by parameters
 * carrying the server's answer, and the events they dispatch are returned.
 */
module ChannelModel {
  import opened Wrappers
  import opened Permissions
  import opened Webhooks
  import opened Reconciliation
  import opened Validation

  /** The answer to a REST call: the server's reply, or an exception. */
  datatype Reply<+T> = Replied(value: T) | RequestFailed

  /** What a channel method throws to its caller. */
  datatype ChannelFailure = Refused(reason: ChannelError) | RequestError

  /** What one run of a typing task does. */
  datatype TypingTick = Cancelled | SentTyping

  class Channel {
    const id: string
    const isPrivate: bool
    var userOverrides: map<string, PermissionOverride>
    var roleOverrides: map<string, PermissionOverride>
    var webhooks: seq<Webhook>
    var typing: bool
    /** How many typing tasks the timer holds for this channel. */
    var typingTasks: nat

    /** `mention()`: the channel's mention, from which its id reads back. */
    function Mention(): (m: string)
      ensures ParseMention(m) == Some(id)
      ensures |m| == |id| + 3
    {
      MentionRoundTrip(id);
      Validation.Mention(id)
    }

    /** The webhook list never holds two webhooks with the same id. */
    ghost predicate Valid()
      reads this
    {
      UniqueIds(webhooks)
    }

    constructor (id: string, isPrivate: bool,
                 roleOverrides: map<string, PermissionOverride>,
                 userOverrides: map<string, PermissionOverride>)
      ensures this.id == id && this.isPrivate == isPrivate
      ensures this.roleOverrides == roleOverrides && this.userOverrides == userOverrides
      ensures webhooks == [] && !typing && typingTasks == 0
      ensures Valid()
    {
      this.id := id;
      this.isPrivate := isPrivate;
      this.roleOverrides := roleOverrides;
      this.userOverrides := userOverrides;
      webhooks := [];
      typing := false;
      typingTasks := 0;
    }

    // -------------------------------------------------------------------------
    // Permissions

    /** `getModifiedPermissions(IUser)`: everything in a private channel or for the
        guild owner; otherwise the guild permissions with the role overrides applied
        last role first, then the member's own override. */
    method ModifiedPermissionsForUser(member: Member, guildOwnerId: string) returns (perms: set<Permission>)
      ensures perms == ResolveUser(isPrivate, guildOwnerId, member, userOverrides, roleOverrides)
    {
      if isPrivate || guildOwnerId == member.id {
        return AllPermissions();
      }
      perms := member.guildPermissions;
      var overrideRoles := Reverse(RoleOverridesFor(member.roles, roleOverrides));
      for i := 0 to |overrideRoles|
        invariant perms == ApplyAll(member.guildPermissions, overrideRoles[..i])
      {
        assert overrideRoles[..i + 1][..i] == overrideRoles[..i];
        perms := perms + overrideRoles[i].allow;
        perms := perms - overrideRoles[i].deny;
      }
      assert overrideRoles[..|overrideRoles|] == overrideRoles;
      if member.id in userOverrides {
        var o := userOverrides[member.id];
        perms := perms + o.allow;
        perms := perms - o.deny;
      }
    }

    /** `getModifiedPermissions(IRole)`: the role's base permissions with the role's
        own override applied, or else the @everyone override, or else unchanged; the
        denied flags are removed one at a time. */
    method ModifiedPermissionsForRole(role: Role, everyoneRoleId: string) returns (perms: set<Permission>)
      ensures perms == ResolveRole(role, everyoneRoleId, roleOverrides)
    {
      perms := role.permissions;
      var o: PermissionOverride;
      if role.id in roleOverrides {
        o := roleOverrides[role.id];
      } else if everyoneRoleId in roleOverrides {
        o := roleOverrides[everyoneRoleId];
      } else {
        return;
      }
      perms := perms + o.allow;
      var toRemove := o.deny;
      while toRemove != {}
        invariant toRemove <= o.deny
        invariant perms == (role.permissions + o.allow) - (o.deny - toRemove)
        decreases |toRemove|
      {
        var p :| p in toRemove;
        perms := perms - {p};
        toRemove := toRemove - {p};
      }
    }

    /** `addUserOverride`: caches the override for the user, replacing any earlier one. */
    method AddUserOverride(userId: string, o: PermissionOverride)
      modifies this`userOverrides
      ensures userOverrides == old(userOverrides)[userId := o]
    {
      userOverrides := userOverrides[userId := o];
    }

    /** `addRoleOverride`: caches the override for the role, replacing any earlier one. */
    method AddRoleOverride(roleId: string, o: PermissionOverride)
      modifies this`roleOverrides
      ensures roleOverrides == old(roleOverrides)[roleId := o]
    {
      roleOverrides := roleOverrides[roleId := o];
    }

    /** `removePermissionsOverride(IUser)`: the cached override goes only once the
        DELETE has succeeded; a failed request throws and leaves the cache alone. */
    method RemoveUserOverride(userId: string, reply: Reply<()>) returns (r: Result<(), ChannelFailure>)
      modifies this`userOverrides
      ensures reply.RequestFailed? ==> r == Failure(RequestError) && userOverrides == old(userOverrides)
      ensures reply.Replied? ==> r.Success? && userOverrides == old(userOverrides) - {userId}
    {
      if reply.RequestFailed? {
        return Failure(RequestError);
      }
      userOverrides := userOverrides - {userId};
      return Success(());
    }

    /** `removePermissionsOverride(IRole)`, the same for a role's override. */
    method RemoveRoleOverride(roleId: string, reply: Reply<()>) returns (r: Result<(), ChannelFailure>)
      modifies this`roleOverrides
      ensures reply.RequestFailed? ==> r == Failure(RequestError) && roleOverrides == old(roleOverrides)
      ensures reply.Replied? ==> r.Success? && roleOverrides == old(roleOverrides) - {roleId}
    {
      if reply.RequestFailed? {
        return Failure(RequestError);
      }
      roleOverrides := roleOverrides - {roleId};
      return Success(());
    }

    // -------------------------------------------------------------------------
    // Webhooks

    /** `addWebhook`: appends the webhook unless one with its id is cached. */
    method AddWebhook(w: Webhook)
      requires Valid()
      modifies this`webhooks
      ensures webhooks == Webhooks.AddWebhook(old(webhooks), w)
      ensures Valid()
    {
      if !HasId(webhooks, w.id) {
        webhooks := webhooks + [w];
      }
    }

    /** `removeWebhook`: drops the cached webhook with this one's id, if any. */
    method RemoveWebhook(w: Webhook)
      requires Valid()
      modifies this`webhooks
      ensures webhooks == Without(old(webhooks), w.id)
      ensures Valid() && !HasId(webhooks, w.id)
    {
      webhooks := Without(webhooks, w.id);
    }

    /** `createWebhook(name, avatar)`: the name check comes first and throws without a
        request; a failed POST throws; otherwise the webhook the server returns is
        cached (unless already present) and returned. */
    method CreateWebhook(name: Option<string>, reply: Reply<Webhook>) returns (r: Result<Webhook, ChannelFailure>)
      requires Valid()
      modifies this`webhooks
      ensures Valid()
      ensures CheckWebhookName(name).Failure? ==> r == Failure(Refused(WebhookNameLength)) && webhooks == old(webhooks)
      ensures CheckWebhookName(name).Success? && reply.RequestFailed? ==>
                r == Failure(RequestError) && webhooks == old(webhooks)
      ensures CheckWebhookName(name).Success? && reply.Replied? ==>
                r == Success(reply.value) && webhooks == Webhooks.AddWebhook(old(webhooks), reply.value)
    {
      var checked := CheckWebhookName(name);
      if checked.Failure? {
        return Failure(Refused(checked.error));
      }
      if reply.RequestFailed? {
        return Failure(RequestError);
      }
      AddWebhook(reply.value);
      return Success(reply.value);
    }

    /** `loadWebhooks`: without the permission nothing happens. Otherwise a snapshot of
        the cache is taken and the response is scanned; what is left of the snapshot
        is then removed from the cache and reported deleted. A failed request changes
        nothing; a `null` body skips the scan. */
    method LoadWebhooks(permitted: bool, response: FetchResult) returns (events: seq<WebhookEvent>)
      requires Valid()
      modifies this`webhooks
      ensures Valid()
      ensures !permitted ==> events == [] && webhooks == old(webhooks)
      ensures permitted ==> Reconciled(webhooks, events) == Reconcile(old(webhooks), response)
    {
      if !permitted || response.FetchFailed? {
        return [];
      }
      var stale, scanned := webhooks, [];
      if response.Fetched? {
        stale, scanned := ScanResponse(response.hooks);
      }
      var deleted := DeleteLeftovers(stale);
      events := scanned + deleted;
    }

    /** The first loop of `loadWebhooks`: each webhook of the response is added (and
        reported created) when no cached id matches it ignoring case, or else
        reported updated when its name or avatar changed and struck from the
        snapshot. With `getWebhookFromJSON` taken to build a fresh record, the
        cached entry itself stays as it was. */
    method ScanResponse(remotes: seq<Webhook>) returns (stale: seq<Webhook>, events: seq<WebhookEvent>)
      requires Valid()
      modifies this`webhooks
      ensures Valid()
      ensures Scan(webhooks, stale, events) == ScanAll(Scan(old(webhooks), old(webhooks), []), remotes)
    {
      stale, events := webhooks, [];
      ghost var s0 := Scan(webhooks, webhooks, []);
      for i := 0 to |remotes|
        invariant Scan(webhooks, stale, events) == ScanAll(s0, remotes[..i])
        invariant Valid()
      {
        ScanAllSnoc(s0, remotes, i);
        var remote := remotes[i];
        match FindById(webhooks, remote.id)
        case None =>
          events := events + [WebhookCreate(remote)];
          AddWebhook(remote);
        case Some(cached) =>
          if Differs(cached, remote) {
            events := events + [WebhookUpdate(cached, remote)];
          }
          stale := Without(stale, cached.id);
      }
      assert remotes[..|remotes|] == remotes;
    }

    /** The second loop of `loadWebhooks`: every webhook left in the snapshot is
        removed from the cache and reported deleted, in snapshot order. */
    method DeleteLeftovers(stale: seq<Webhook>) returns (events: seq<WebhookEvent>)
      requires Valid()
      modifies this`webhooks
      ensures Valid()
      ensures Reconciled(webhooks, events) == DeleteStale(old(webhooks), stale)
    {
      events := [];
      for j := 0 to |stale|
        invariant DeleteStale(webhooks, stale[j..]).cache == DeleteStale(old(webhooks), stale).cache
        invariant events == DeleteEvents(stale[..j])
        invariant Valid()
      {
        DeleteStaleStep(webhooks, stale, j);
        DeleteEventsSnoc(stale, j);
        RemoveWebhook(stale[j]);
        events := events + [WebhookDelete(stale[j])];
      }
      assert stale[|stale|..] == [] && stale[..|stale|] == stale;
    }

    // -------------------------------------------------------------------------
    // Typing

    /** `setTypingStatus`: sets the flag; setting it to true schedules one more
        repeating typing task, on every call. */
    method SetTypingStatus(b: bool)
      modifies this`typing, this`typingTasks
      ensures typing == b
      ensures typingTasks == old(typingTasks) + if b then 1 else 0
    {
      typing := b;
      if typing {
        typingTasks := typingTasks + 1;
      }
    }

    /** `toggleTypingStatus`: `setTypingStatus` with the flag negated. */
    method ToggleTypingStatus()
      modifies this`typing, this`typingTasks
      ensures typing == !old(typing)
      ensures typingTasks == old(typingTasks) + if old(typing) then 0 else 1
    {
      SetTypingStatus(!typing);
    }

    /** `getTypingStatus`. */
    method GetTypingStatus() returns (b: bool)
      ensures b == typing
    {
      b := typing;
    }

    /** One run of a scheduled typing task: it cancels itself once the flag is off or
        the channel has been deleted, and otherwise sends a typing notice. */
    method RunTypingTask(deleted: bool) returns (tick: TypingTick)
      requires typingTasks > 0
      modifies this`typingTasks
      ensures !typing || deleted ==> tick == Cancelled && typingTasks == old(typingTasks) - 1
      ensures typing && !deleted ==> tick == SentTyping && typingTasks == old(typingTasks)
    {
      if !typing || deleted {
        typingTasks := typingTasks - 1;
        return Cancelled;
      }
      return SentTyping;
    }
  }

  /** One more element of the snapshot gives one more delete event at the end. */
  /** One pass of the second loop removes the next snapshot entry's id. */
  lemma DeleteStaleStep(cache: seq<Webhook>, stale: seq<Webhook>, j: nat)
    requires j < |stale|
    ensures DeleteStale(cache, stale[j..]).cache == DeleteStale(Without(cache, stale[j].id), stale[j + 1..]).cache
  {
    assert stale[j..][0] == stale[j] && stale[j..][1..] == stale[j + 1..];
  }

  lemma DeleteEventsSnoc(stale: seq<Webhook>, j: nat)
    requires j < |stale|
    ensures DeleteEvents(stale[..j + 1]) == DeleteEvents(stale[..j]) + [WebhookDelete(stale[j])]
  {
    var a, b := DeleteEvents(stale[..j + 1]), DeleteEvents(stale[..j]) + [WebhookDelete(stale[j])];
    assert |a| == |b|;
    forall k | 0 <= k < |a| ensures a[k] == b[k] {
      if k < j {
        assert stale[..j + 1][k] == stale[..j][k];
      }
    }
  }
}
