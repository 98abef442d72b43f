# Channel cache of Discord4J, modelled in Dafny

This project models the local cache a Discord4J `Channel` keeps of a chat
channel, and proves properties of it:

- **Permission resolution** (`Permissions`, and the two
  `getModifiedPermissions` methods of `ChannelModel.Channel`): a private channel
  or the guild owner gets every flag; otherwise the member's guild permissions
  have the channel's role overrides applied in reverse of the member's role
  list, then the member's own override, each override adding its allow set and
  then removing its deny set. A role resolves with its own override, else the
  @everyone override, else its base set.
- **Override store** (`ChannelModel.Channel`): the user-id and role-id maps,
  with last-write-wins put and single-key removal after a successful DELETE.
- **Webhook cache** (`Webhooks`, `Reconciliation`, `ChannelModel.Channel`):
  lookup by id ignoring case, lookup by name, append-if-absent, removal, webhook
  creation with its name-length check, and `loadWebhooks`, which reconciles the
  cache with the server's list and dispatches create, update and delete events
  (returned here as a sequence).
- **Small checks** (`Validation`): the channel-name pattern of `edit`, the mention
  string, and the comparator `getPosition` sorts channels with.
- **Typing flag** (`ChannelModel.Channel`): the flag, the number of repeating
  typing tasks scheduled, and what one run of a task does.

`loadWebhooks` is modelled twice. `Reconciliation.Reconcile` and the methods
`ScanResponse` and `DeleteLeftovers` follow the Java loops (a scan of the
response that mutates the cache and a snapshot, then a pass over what is left
of the snapshot). `Kept`, `Fresh`, `Unmatched` and `ExpectedEvents` say the
same thing element by element, and `ReconcileClosedForm` proves the two agree
whenever ids are distinct ignoring case.

The model follows the code where a reader might expect otherwise:

- In the update branch the code copies the cached webhook, then assigns the
  result of `DiscordUtils.getWebhookFromJSON` to the local variable
  (Channel.java:640-646). That helper is not part of this model; it is taken to
  build a fresh record, so the cached entry is not replaced. With that choice a
  changed webhook is reported as updated on every load (`ReconcileSettles`,
  `ReconcileExampleRepeats`). If the helper updates the cached object in place,
  as the copy at Channel.java:641 suggests, the cache takes the new name and
  avatar and a second load reports nothing.
- A `null` response body skips the scan, and then every snapshot entry is
  removed and reported deleted (`ReconcileNullBodyDeletesAll`). Only an
  exception from the request leaves the cache untouched.
- `setTypingStatus(true)` schedules a new repeating task on every call; a second
  start is not a no-op. `typingTasks` counts the scheduled tasks.
- Role overrides are applied in reverse of the member's role list as given; no
  sort by role hierarchy happens in this code.
- `getWebhookByID` compares ids ignoring case, while `addWebhook`,
  `removeWebhook` and the snapshot removal go through `IWebhook.equals`, taken
  here to compare exact ids (see the `IWebhook.equals` line under "## Left out").

## Model

| member | source | states |
|---|---|---|
| Permissions.AllPermissions | src/main/java/sx/blah/discord/handle/impl/obj/Channel.java:390-391 | the set holds every permission flag |
| Permissions.ApplyOverride | src/main/java/sx/blah/discord/handle/impl/obj/Channel.java:403-404 | a denied flag is absent, an allowed and not denied flag present, any other flag as before: deny wins within one override |
| Permissions.ApplyAllLastSayDecides | src/main/java/sx/blah/discord/handle/impl/obj/Channel.java:402-405 | applying overrides in order means the last override mentioning a flag decides it; unmentioned flags keep the start value |
| Permissions.ApplyAllBounds | src/main/java/sx/blah/discord/handle/impl/obj/Channel.java:402-405 | after the overrides a flag is granted only if it was granted before or some override allows it, and a flag granted before stays granted unless some override denies it |
| Permissions.Reverse | src/main/java/sx/blah/discord/handle/impl/obj/Channel.java:401 | `Collections.reverse`: same length, element i is element n-1-i |
| Permissions.LastSayOfReverse | src/main/java/sx/blah/discord/handle/impl/obj/Channel.java:401-405 | the last override of the reversed list to mention a flag is the first of the original list |
| Permissions.RoleOverridesFor | src/main/java/sx/blah/discord/handle/impl/obj/Channel.java:397-400 | at most one override per role, each taken from the role map; none when no role of the member has one |
| Permissions.FirstSayOfRoleOverrides | src/main/java/sx/blah/discord/handle/impl/obj/Channel.java:397-400 | the filtered override list is decided by the first role of the member's list whose override mentions the flag |
| Permissions.ResolveUser | src/main/java/sx/blah/discord/handle/impl/obj/Channel.java:389-391 | a private channel or the guild owner gets every flag |
| Permissions.ResolveUserPrecedence | src/main/java/sx/blah/discord/handle/impl/obj/Channel.java:389-413 | flag by flag: the member's own override (deny before allow), else the first listed role whose override mentions the flag, else the guild permission |
| Permissions.PutUserOverrideDecides | src/main/java/sx/blah/discord/handle/impl/obj/Channel.java:407-410 | after putting a user override, it decides every flag it mentions; other flags resolve as without a user override |
| Permissions.NoOverridesKeepsGuildPermissions | src/main/java/sx/blah/discord/handle/impl/obj/Channel.java:392-413 | with no override for the member or their roles the guild permissions come through unchanged |
| Permissions.ResolveRole | src/main/java/sx/blah/discord/handle/impl/obj/Channel.java:416-429 | the role's own override, else the @everyone override, else the base set |
| Permissions.RoleAgreesWithSingleRoleMember | src/main/java/sx/blah/discord/handle/impl/obj/Channel.java:389-429 | a role with an override resolves like a member holding only that role with the role's base set |
| Permissions.RolePrecedenceExample | src/main/java/sx/blah/discord/handle/impl/obj/Channel.java:397-405 | roles ["high", "low"]: "high" denying SEND_MESSAGES beats the guild grant, "low" allowing EMBED_LINKS adds it |
| ChannelModel.Channel.constructor | src/main/java/sx/blah/discord/handle/impl/obj/Channel.java:105-120 | override maps as given, empty webhook list, typing off, no typing task |
| ChannelModel.Channel.ModifiedPermissionsForUser | src/main/java/sx/blah/discord/handle/impl/obj/Channel.java:388-413 | the loop over the reversed role overrides computes `ResolveUser` |
| ChannelModel.Channel.ModifiedPermissionsForRole | src/main/java/sx/blah/discord/handle/impl/obj/Channel.java:415-429 | removing the denied flags one by one computes `ResolveRole` |
| ChannelModel.Channel.AddUserOverride | src/main/java/sx/blah/discord/handle/impl/obj/Channel.java:437-439 | the user's entry is replaced by the new override, other entries unchanged |
| ChannelModel.Channel.AddRoleOverride | src/main/java/sx/blah/discord/handle/impl/obj/Channel.java:447-449 | the role's entry is replaced by the new override, other entries unchanged |
| ChannelModel.Channel.RemoveUserOverride | src/main/java/sx/blah/discord/handle/impl/obj/Channel.java:451-458 | a failed DELETE throws and keeps the map; a successful one removes exactly the user's key |
| ChannelModel.Channel.RemoveRoleOverride | src/main/java/sx/blah/discord/handle/impl/obj/Channel.java:460-467 | a failed DELETE throws and keeps the map; a successful one removes exactly the role's key |
| Webhooks.FindById | src/main/java/sx/blah/discord/handle/impl/obj/Channel.java:553-558 | `None` exactly when no cached id equals the id ignoring case; otherwise a cached webhook whose id does |
| Webhooks.EqualsIgnoreCase | src/main/java/sx/blah/discord/handle/impl/obj/Channel.java:556 | equal ids are equal ignoring case; ids equal ignoring case have the same length |
| Webhooks.EqualsIgnoreCaseByCharacters | src/main/java/sx/blah/discord/handle/impl/obj/Channel.java:556 | equal ignoring case exactly when the lengths agree and each pair of characters agrees after ASCII lower-casing |
| Webhooks.FindByName | src/main/java/sx/blah/discord/handle/impl/obj/Channel.java:560-565 | exactly the cached webhooks with that default name (membership; `FindByNameAppend` fixes the order) |
| Webhooks.FindByNameAppend | src/main/java/sx/blah/discord/handle/impl/obj/Channel.java:560-565 | filtering a concatenation gives the filtered parts one after the other, so cache order and repeats are kept |
| Webhooks.AddWebhook | src/main/java/sx/blah/discord/handle/impl/obj/Channel.java:601-604 | unchanged when the id is cached, else appended; ids stay unique |
| Webhooks.HasIdFound | src/main/java/sx/blah/discord/handle/impl/obj/Channel.java:602 | a webhook `contains` finds by exact id is also found by `getWebhookByID` |
| Webhooks.HasIdIsCaseSensitive | src/main/java/sx/blah/discord/handle/impl/obj/Channel.java:602 | an id that differs only in case is found by `getWebhookByID` but not by `contains` |
| Webhooks.Without | src/main/java/sx/blah/discord/handle/impl/obj/Channel.java:611-613 | removes one webhook with that id and nothing else; no-op when absent (`WithoutRemovesFirst` says which one) |
| Webhooks.WithoutRemovesFirst | src/main/java/sx/blah/discord/handle/impl/obj/Channel.java:611-613 | the entry removed is the first with that id, and the entries before and after it keep their order |
| ChannelModel.Channel.AddWebhook | src/main/java/sx/blah/discord/handle/impl/obj/Channel.java:601-604 | the list becomes `AddWebhook` of the old list; ids stay unique |
| ChannelModel.Channel.RemoveWebhook | src/main/java/sx/blah/discord/handle/impl/obj/Channel.java:611-613 | the list becomes `Without` of the old list; the id is gone |
| Validation.CheckWebhookName | src/main/java/sx/blah/discord/handle/impl/obj/Channel.java:582-583 | accepted exactly when present and 2 to 32 UTF-16 units long |
| Validation.Utf16Length | src/main/java/sx/blah/discord/handle/impl/obj/Channel.java:582 | `String.length()` lies between the character count and twice it, and equals it inside the Basic Multilingual Plane |
| Validation.CheckWebhookNameByCharacters | src/main/java/sx/blah/discord/handle/impl/obj/Channel.java:582-583 | names of 2 to 16 characters pass; 1 BMP character or more than 32 characters fail |
| ChannelModel.Channel.CreateWebhook | src/main/java/sx/blah/discord/handle/impl/obj/Channel.java:577-594 | a bad name throws with no request and no change; a failed POST throws with no change; otherwise the returned webhook is added if absent and returned |
| Reconciliation.DeleteEvents | src/main/java/sx/blah/discord/handle/impl/obj/Channel.java:651-654 | one delete event per webhook, same order |
| Reconciliation.DeleteStale | src/main/java/sx/blah/discord/handle/impl/obj/Channel.java:651-654 | the events of the deletion pass are a delete per snapshot entry, in order |
| Reconciliation.AvatarText | src/main/java/sx/blah/discord/handle/impl/obj/Channel.java:643 | `String.valueOf`: "null" exactly for a missing avatar or the avatar string "null"; a present avatar reads as itself |
| Reconciliation.Differs | src/main/java/sx/blah/discord/handle/impl/obj/Channel.java:643 | a webhook never differs from itself; a changed name always differs; with both avatars present it differs exactly when name or avatar changed; a missing avatar does not differ from "null" |
| Reconciliation.ScanStepEffect | src/main/java/sx/blah/discord/handle/impl/obj/Channel.java:634-648 | one response entry adds the events `Classify` judges against the live cache; an unknown id is always appended with the snapshot unchanged; a known id leaves the cache as it was and the snapshot no larger |
| Reconciliation.ScanAllExtends | src/main/java/sx/blah/discord/handle/impl/obj/Channel.java:634-648 | the scan only appends: at most one cache entry and one event per response entry, earlier entries and events unchanged; the snapshot only shrinks |
| Reconciliation.Reconcile | src/main/java/sx/blah/discord/handle/impl/obj/Channel.java:622-659 | an exception from the request changes nothing and reports nothing; a `null` body reports one delete per cached webhook, in cache order |
| Reconciliation.ReconcileBounded | src/main/java/sx/blah/discord/handle/impl/obj/Channel.java:633-654 | after a fetched response the cache holds at most the old entries plus the response's entries |
| Reconciliation.ScanPrefix | src/main/java/sx/blah/discord/handle/impl/obj/Channel.java:634-648 | after i response entries the scan has appended the new ones, kept in the snapshot the unmatched cached ones, and dispatched the expected creates and updates |
| Reconciliation.DeleteUnmatched | src/main/java/sx/blah/discord/handle/impl/obj/Channel.java:651-654 | the deletion pass removes exactly the unmatched cached entries and keeps what the scan appended |
| Reconciliation.ReconcileClosedForm | src/main/java/sx/blah/discord/handle/impl/obj/Channel.java:622-659 | final cache is matched cached entries then new remote ones; events are creates/updates in response order, then deletes in cache order |
| Reconciliation.ReconcileNullBodyDeletesAll | src/main/java/sx/blah/discord/handle/impl/obj/Channel.java:633-654 | a `null` body empties the cache and reports every cached webhook deleted |
| Reconciliation.ReconcileCreates | src/main/java/sx/blah/discord/handle/impl/obj/Channel.java:635-638 | a create is reported for exactly the remote webhooks whose id the cache lacks |
| Reconciliation.ReconcileUpdates | src/main/java/sx/blah/discord/handle/impl/obj/Channel.java:639-644 | an update (cached, remote) is reported exactly when the cache matches the id and name or avatar text differ |
| Reconciliation.ReconcileCacheMembers | src/main/java/sx/blah/discord/handle/impl/obj/Channel.java:633-654 | the cache ends holding exactly the cached entries still listed and the remote ones not cached |
| Reconciliation.ReconcileDeletes | src/main/java/sx/blah/discord/handle/impl/obj/Channel.java:646-654 | a delete is reported for exactly the cached webhooks the server no longer lists |
| Reconciliation.ReconcileUnchangedRemote | src/main/java/sx/blah/discord/handle/impl/obj/Channel.java:633-654 | when the server returns the cached list, nothing changes and nothing is reported |
| Reconciliation.ReconcileSettles | src/main/java/sx/blah/discord/handle/impl/obj/Channel.java:633-654 | a second load of the same list keeps the cache and reports no create or delete, only updates |
| Reconciliation.ReconcileExample | src/main/java/sx/blah/discord/handle/impl/obj/Channel.java:633-654 | cache [A, B], server [A', C]: events update A, create C, delete B; cache [A, C] with A's old record, `getWebhookFromJSON` being taken to build a fresh record |
| Reconciliation.ReconcileExampleRepeats | src/main/java/sx/blah/discord/handle/impl/obj/Channel.java:640-646 | loading [A', C] again over [A, C] reports the update of A again and changes nothing, `getWebhookFromJSON` being taken to build a fresh record |
| ChannelModel.Channel.ScanResponse | src/main/java/sx/blah/discord/handle/impl/obj/Channel.java:633-649 | the scan loop leaves the cache, snapshot and events that `ScanAll` gives |
| ChannelModel.Channel.DeleteLeftovers | src/main/java/sx/blah/discord/handle/impl/obj/Channel.java:651-654 | the deletion loop leaves the cache and events that `DeleteStale` gives |
| ChannelModel.Channel.LoadWebhooks | src/main/java/sx/blah/discord/handle/impl/obj/Channel.java:615-659 | without permission nothing happens; otherwise cache and events are those of `Reconcile`; ids stay unique |
| Validation.ChannelNameClassParsed | src/main/java/sx/blah/discord/handle/impl/obj/Channel.java:325 | the class `a-z0-9-_` reads as two ranges and the literal characters `-` and `_` |
| Validation.ParseClass | src/main/java/sx/blah/discord/handle/impl/obj/Channel.java:325 | every parsed item is made of characters of the class body, every range runs upwards, and there are no more items than characters |
| Validation.ChannelNameClassMembers | src/main/java/sx/blah/discord/handle/impl/obj/Channel.java:325 | the class admits exactly lower-case ASCII letters, digits, `-` and `_` |
| Validation.MatchesRepeatCharacterised | src/main/java/sx/blah/discord/handle/impl/obj/Channel.java:325 | `^[class]{min,max}$` matches exactly the strings of min to max class characters |
| Validation.MatchesRepeat | src/main/java/sx/blah/discord/handle/impl/obj/Channel.java:325 | a match has between `min` and `max` characters and starts with a class character; `MatchesRepeatCharacterised` gives the full characterisation |
| Validation.MatchesChannelNamePattern | src/main/java/sx/blah/discord/handle/impl/obj/Channel.java:325 | the pattern matches exactly names of 2 to 100 allowed characters |
| Validation.Edit | src/main/java/sx/blah/discord/handle/impl/obj/Channel.java:321-331 | fails with an illegal-name error exactly when the name is missing or does not match; else the request carries name, position and topic |
| Validation.EditExamples | src/main/java/sx/blah/discord/handle/impl/obj/Channel.java:325-326 | "general" is accepted; "General", "a" and a missing name are refused |
| Validation.Mention | src/main/java/sx/blah/discord/handle/impl/obj/Channel.java:179-182 | `<#`, then the id, then `>` |
| Validation.MentionRoundTrip | src/main/java/sx/blah/discord/handle/impl/obj/Channel.java:179-182 | the id can be read back from the mention |
| Validation.MentionInjective | src/main/java/sx/blah/discord/handle/impl/obj/Channel.java:179-182 | different channel ids give different mentions |
| ChannelModel.Channel.Mention | src/main/java/sx/blah/discord/handle/impl/obj/Channel.java:179-182 | the channel's mention reads back to its own id, and is three characters longer than it |
| Validation.Wrap32 | src/main/java/sx/blah/discord/handle/impl/obj/Channel.java:357 | Java `int` arithmetic: in-range values unchanged, others reduced modulo 2^32 |
| Validation.CompareAsWritten | src/main/java/sx/blah/discord/handle/impl/obj/Channel.java:350-358 | equal positions put the newer channel first; otherwise the 32-bit difference of the positions |
| Validation.CompareAsWrittenOverflows | src/main/java/sx/blah/discord/handle/impl/obj/Channel.java:357 | positions 2147483647 and -1 each compare as less than the other |
| Validation.CompareCorrected | src/main/java/sx/blah/discord/handle/impl/obj/Channel.java:350-358 | before exactly when lower position, or same position and newer; zero exactly on equal position and date |
| Validation.CompareCorrectedIsTotalOrder | src/main/java/sx/blah/discord/handle/impl/obj/Channel.java:350-358 | sign flips with the arguments, "before" is transitive, equal-comparing channels compare alike |
| Validation.CorrectedAgreesWithoutOverflow | src/main/java/sx/blah/discord/handle/impl/obj/Channel.java:350-358 | without overflow the corrected and written comparators agree in sign |
| ChannelModel.Channel.SetTypingStatus | src/main/java/sx/blah/discord/handle/impl/obj/Channel.java:296-314 | the flag takes the value; `true` schedules one more typing task on every call |
| ChannelModel.Channel.ToggleTypingStatus | src/main/java/sx/blah/discord/handle/impl/obj/Channel.java:290-293 | the flag is negated; turning it on schedules a task |
| ChannelModel.Channel.GetTypingStatus | src/main/java/sx/blah/discord/handle/impl/obj/Channel.java:316-319 | returns the flag |
| ChannelModel.Channel.RunTypingTask | src/main/java/sx/blah/discord/handle/impl/obj/Channel.java:302-312 | a task cancels itself once typing is off or the channel is deleted; otherwise it sends a typing notice and keeps running |

## Left out

- REST calls: each request's outcome is a parameter (`Reply`, `FetchResult`); URLs, request bodies other than the edit request, and rate-limit retries (`RequestBuffer`) are not modelled.
- `DiscordUtils.checkPermissions` is not part of this model. Only its effect on `loadWebhooks` is kept, as the `permitted` flag. The checks that guard `edit`, `createWebhook` and `removePermissionsOverride` are not modelled, and neither is `getShard().checkReady`.
- The event dispatcher: events are returned in dispatch order instead of being dispatched.
- `DiscordUtils.getWebhookFromJSON` is not part of this model. A response entry is taken to be the webhook record built from its id, name and avatar. In the update branch the helper is taken to build a fresh record, not to update the cached object in place. Three results depend on that choice: the final cache of `Reconciliation.ReconcileExample` keeps A's old record, and `Reconciliation.ReconcileSettles` and `Reconciliation.ReconcileExampleRepeats` report the same update again on a second load. If the helper updates in place, the cache takes the new name and avatar and a second load reports nothing.
- `IWebhook.equals` and `IWebhook.copy` are not part of this model. Webhooks are taken to be equal when their ids are, and a copy is the same record.
- Concurrency is not modelled: `CopyOnWriteArrayList`, `AtomicBoolean`, `synchronized` and the shared timer thread. Each method runs atomically.
- The timer's 10-second period is not modelled. `typingTasks` counts the scheduled tasks, and `RunTypingTask` is one run of one of them.
- Webhooks.EqualsIgnoreCase: folds ASCII letters only, because Dafny has no Unicode case mapping. Java's `equalsIgnoreCase` also folds other scripts.
- The permission flags come from `Permissions.java`, which is not part of this model. The enumeration lists the platform's flag names.
- Aliasing is not modelled. `getModifiedPermissions` adds to and removes from the very set that `getPermissionsForGuild` or `getPermissions` returned. `copy()` passes the same override maps to the new channel. The model returns fresh sets and does not model `copy()`.
- `getPosition` sorts the guild's channel list and returns the channel's index; only the comparator is modelled. Creation dates are numbers, and only their order matters.
- A `null` name in `getWebhooksByName`, or a `null` id in `getWebhookByID`, is not modelled: ids and names are always present.
- Messages, invites, pins, voice and the other REST operations of `Channel.java` are outside the modelled core. So is `StoreChannelCreateSpec`.
- Reconciliation.ReconcileClosedForm: proved only when the cached ids, and the server's ids, are each distinct ignoring case. The cache itself only guarantees distinct exact ids.
- Reconciliation.ReconcileCreates: same restriction, ids distinct ignoring case on both sides.
- Reconciliation.ReconcileUpdates: same restriction, ids distinct ignoring case on both sides.
- Reconciliation.ReconcileCacheMembers: same restriction, ids distinct ignoring case on both sides.
- Reconciliation.ReconcileDeletes: same restriction, ids distinct ignoring case on both sides.
- Reconciliation.ReconcileSettles: same restriction, ids distinct ignoring case on both sides.
- Reconciliation.ReconcileUnchangedRemote: same restriction, cached ids distinct ignoring case.
- Reconciliation.ScanPrefix: same restriction, ids distinct ignoring case on both sides.
- Reconciliation.DeleteUnmatched: same restriction, cached ids distinct ignoring case.

## Findings

| source | as written | input that shows it | evidently intended | confidence | as-written member | corrected member |
|---|---|---|---|---|---|---|
| src/main/java/sx/blah/discord/handle/impl/obj/Channel.java:357 | the channel comparator returns `originalPos1 - originalPos2`, which wraps around in 32-bit `int` arithmetic | positions 2147483647 and -1: each channel compares as less than the other, which breaks the `Comparator` contract the list sort relies on | compare the positions without subtracting (`Integer.compare`) | not executed; the overflow needs positions 2^31 apart | Validation.CompareAsWrittenOverflows | Validation.CompareCorrected |
