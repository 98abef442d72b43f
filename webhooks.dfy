/**
 * The channel's webhook cache as a list of records, and the list operations
 * the channel performs on it: lookup by id ignoring case, lookup by name,
 * append-if-absent and remove.
 */
module Webhooks {
  import opened Wrappers

  /** A cached webhook: its id, its default name and its default avatar
      (`None` for a webhook without an avatar). */
  datatype Webhook = Webhook(id: string, name: string, avatar: Option<string>)

  /** Lower-cases the ASCII letters and leaves every other character alone. */
  function LowerAscii(c: char): (r: char)
    ensures 'A' <= c <= 'Z' ==> r as int == c as int + 32
    ensures !('A' <= c <= 'Z') ==> r == c
  {
    if 'A' <= c <= 'Z' then (c as int + 32) as char else c
  }

  function Fold(s: string): (r: string)
    ensures |r| == |s|
    ensures forall i :: 0 <= i < |s| ==> r[i] == LowerAscii(s[i])
  {
    seq(|s|, i requires 0 <= i < |s| => LowerAscii(s[i]))
  }

  /** `String.equalsIgnoreCase`, for ASCII letters: equal strings are equal ignoring
      case, and strings equal ignoring case have the same length. */
  function EqualsIgnoreCase(a: string, b: string): (r: bool)
    ensures a == b ==> r
    ensures r ==> |a| == |b|
  {
    Fold(a) == Fold(b)
  }

  /** Equality ignoring case, character by character. */
  lemma EqualsIgnoreCaseByCharacters(a: string, b: string)
    ensures EqualsIgnoreCase(a, b) <==>
      |a| == |b| && forall i :: 0 <= i < |a| ==> LowerAscii(a[i]) == LowerAscii(b[i])
  {
    if |a| == |b| && forall i :: 0 <= i < |a| ==> LowerAscii(a[i]) == LowerAscii(b[i]) {
      assert forall i :: 0 <= i < |a| ==> Fold(a)[i] == Fold(b)[i];
    }
  }

  /** `getWebhookByID`: the first cached webhook whose id equals `id` ignoring case,
      or `None` (Java's `null`) when there is none. */
  function FindById(hooks: seq<Webhook>, id: string): (r: Option<Webhook>)
    ensures r.None? <==> forall w :: w in hooks ==> !EqualsIgnoreCase(w.id, id)
    ensures r.Some? ==> r.value in hooks && EqualsIgnoreCase(r.value.id, id)
  {
    if hooks == [] then None
    else if EqualsIgnoreCase(hooks[0].id, id) then Some(hooks[0])
    else FindById(hooks[1..], id)
  }

  /** `getWebhooksByName`: the cached webhooks whose default name is `name`, in cache
      order (`FindByNameAppend` fixes the order). */
  function FindByName(hooks: seq<Webhook>, name: string): (r: seq<Webhook>)
    ensures forall w :: w in r <==> w in hooks && w.name == name
    ensures |r| <= |hooks|
  {
    if hooks == [] then []
    else (if hooks[0].name == name then [hooks[0]] else []) + FindByName(hooks[1..], name)
  }

  /** Filtering a concatenation filters each part and keeps them in order. */
  lemma {:induction false} FindByNameAppend(a: seq<Webhook>, b: seq<Webhook>, name: string)
    ensures FindByName(a + b, name) == FindByName(a, name) + FindByName(b, name)
    decreases |a|
  {
    if a != [] {
      assert (a + b)[0] == a[0] && (a + b)[1..] == a[1..] + b;
      FindByNameAppend(a[1..], b, name);
    } else {
      assert a + b == b;
    }
  }

  /** `List.contains`: a webhook equal to one with this id is cached (webhooks are
      equal when their ids are). */
  predicate HasId(hooks: seq<Webhook>, id: string) {
    exists w :: w in hooks && w.id == id
  }

  /** A webhook `contains` reports is also found by the lookup that ignores case;
      the converse fails for ids that differ only in case. */
  lemma HasIdFound(hooks: seq<Webhook>, id: string)
    ensures HasId(hooks, id) ==> FindById(hooks, id).Some?
    ensures FindById(hooks, id).None? ==> !HasId(hooks, id)
  {
  }

  lemma HasIdIsCaseSensitive()
    ensures var w := Webhook("A", "n", None);
      FindById([w], "a") == Some(w) && !HasId([w], "a")
  {
    var w := Webhook("A", "n", None);
    assert Fold("A")[0] == Fold("a")[0];
    assert Fold("A") == Fold("a");
  }

  /** No two cached webhooks share an id. */
  predicate UniqueIds(hooks: seq<Webhook>) {
    forall i, j :: 0 <= i < j < |hooks| ==> hooks[i].id != hooks[j].id
  }

  /** No two webhooks have ids that are equal ignoring case. */
  predicate DistinctIgnoringCase(hooks: seq<Webhook>) {
    forall i, j :: 0 <= i < j < |hooks| ==> !EqualsIgnoreCase(hooks[i].id, hooks[j].id)
  }

  /** `addWebhook`: appends `w` unless a webhook with its id is already cached. */
  function AddWebhook(hooks: seq<Webhook>, w: Webhook): (r: seq<Webhook>)
    ensures HasId(hooks, w.id) ==> r == hooks
    ensures !HasId(hooks, w.id) ==> r == hooks + [w]
    ensures UniqueIds(hooks) ==> UniqueIds(r)
  {
    if HasId(hooks, w.id) then hooks else hooks + [w]
  }

  /** `List.remove(Object)`: drops the first webhook with this id, if any, and keeps
      the others in order. */
  function Without(hooks: seq<Webhook>, id: string): (r: seq<Webhook>)
    ensures forall w :: w in r ==> w in hooks
    ensures !HasId(hooks, id) ==> r == hooks
    ensures HasId(hooks, id) ==> |r| == |hooks| - 1
    ensures UniqueIds(hooks) ==> UniqueIds(r) && !HasId(r, id)
    ensures UniqueIds(hooks) ==> forall w :: w in hooks && w.id != id ==> w in r
  {
    if hooks == [] then []
    else if hooks[0].id == id then hooks[1..]
    else [hooks[0]] + Without(hooks[1..], id)
  }

  /** `k` is the first position holding `id`, and `r` is `hooks` without that entry. */
  predicate FirstWithIdRemoved(hooks: seq<Webhook>, id: string, k: int, r: seq<Webhook>) {
    0 <= k < |hooks| && hooks[k].id == id && (forall j :: 0 <= j < k ==> hooks[j].id != id) &&
    r == hooks[..k] + hooks[k + 1..]
  }

  /** `Without` removes the FIRST webhook with the id and keeps the rest in order. */
  lemma {:induction false} WithoutRemovesFirst(hooks: seq<Webhook>, id: string)
    requires HasId(hooks, id)
    ensures exists k :: FirstWithIdRemoved(hooks, id, k, Without(hooks, id))
    decreases |hooks|
  {
    if hooks[0].id == id {
      assert hooks[..0] + hooks[1..] == hooks[1..];
      assert FirstWithIdRemoved(hooks, id, 0, Without(hooks, id));
    } else {
      assert HasId(hooks[1..], id) by {
        var w :| w in hooks && w.id == id;
        assert w in hooks[1..] by { assert hooks == [hooks[0]] + hooks[1..]; }
      }
      WithoutRemovesFirst(hooks[1..], id);
      var k :| FirstWithIdRemoved(hooks[1..], id, k, Without(hooks[1..], id));
      FirstWithIdRemovedShift(hooks, id, k, Without(hooks[1..], id));
    }
  }

  lemma FirstWithIdRemovedShift(hooks: seq<Webhook>, id: string, k: int, rest: seq<Webhook>)
    requires hooks != [] && hooks[0].id != id
    requires FirstWithIdRemoved(hooks[1..], id, k, rest)
    ensures FirstWithIdRemoved(hooks, id, k + 1, [hooks[0]] + rest)
  {
    var t := hooks[1..];
    assert hooks[..k + 1] == [hooks[0]] + t[..k];
    assert hooks[k + 2..] == t[k + 1..];
  }
}
