/**
 * The checks and small computations of `Channel` that touch no cache: the
 * channel-name pattern of `edit`, the name-length check of `createWebhook`,
 * the mention string, and the comparator `getPosition` sorts the guild's
 * channels with.
 */
module Validation {
  import opened Wrappers

  /** Why a channel operation refuses its arguments before any request is made. */
  datatype ChannelError =
    | IllegalChannelName     // edit: `IllegalArgumentException`
    | WebhookNameLength      // createWebhook: `DiscordException`

  // ---------------------------------------------------------------------------
  // The pattern `^[a-z0-9-_]{2,100}$`

  /** One item of a regular-expression character class: a single character or a range. */
  datatype ClassItem = Single(c: char) | Range(lo: char, hi: char)

  predicate InClass(items: seq<ClassItem>, c: char) {
    exists item :: item in items && match item {
      case Single(x) => c == x
      case Range(lo, hi) => lo <= c <= hi
    }
  }

  /** Reads the inside of a bracketed character class made of plain characters and
      ranges (no escapes, no `^` negation, no nested classes or `&&`), the way
      `java.util.regex.Pattern` reads such a class: a character followed by `-` and
      a further character is a range (an inverted range is a syntax error, `None`);
      any other character, including a `-` that directly follows a range or ends
      the class, stands for itself. Every item is made of characters of the body,
      and every range runs upwards. */
  function ParseClass(body: string): (r: Option<seq<ClassItem>>)
    ensures r.Some? ==> |r.value| <= |body|
    ensures r.Some? ==> forall item :: item in r.value ==> match item {
      case Single(c) => c in body
      case Range(lo, hi) => lo <= hi && lo in body && hi in body
    }
    decreases |body|
  {
    if body == [] then Some([])
    else if |body| >= 3 && body[1] == '-' then
      if body[2] < body[0] then None
      else match ParseClass(body[3..]) {
        case None => None
        case Some(rest) => Some([Range(body[0], body[2])] + rest)
      }
    else match ParseClass(body[1..]) {
      case None => None
      case Some(rest) => Some([Single(body[0])] + rest)
    }
  }

  /** The class of the channel-name pattern, as the regex engine reads it. */
  const ChannelNameClass: seq<ClassItem> := [Range('a', 'z'), Range('0', '9'), Single('-'), Single('_')]

  /** `a-z0-9-_` is two ranges and two literal characters: the `-` after `0-9`
      does not start a range. */
  lemma ChannelNameClassParsed()
    ensures ParseClass("a-z0-9-_") == Some(ChannelNameClass)
  {
    var s0, s1, s2, s3 := "a-z0-9-_", "0-9-_", "-_", "_";
    assert s3[1..] == [] && ParseClass([]) == Some([]);
    assert ParseClass(s3) == Some([Single('_')] + []);
    assert [Single('_')] + [] == [Single('_')];
    assert s2[1..] == s3 && !(|s2| >= 3);
    assert ParseClass(s2) == Some([Single('-')] + [Single('_')]);
    assert [Single('-')] + [Single('_')] == [Single('-'), Single('_')];
    assert s1[3..] == s2 && s1[1] == '-' && s1[0] <= s1[2];
    assert ParseClass(s1) == Some([Range('0', '9')] + [Single('-'), Single('_')]);
    assert [Range('0', '9')] + [Single('-'), Single('_')] == [Range('0', '9'), Single('-'), Single('_')];
    assert s0[3..] == s1 && s0[1] == '-' && s0[0] <= s0[2];
    assert ParseClass(s0) == Some([Range('a', 'z')] + [Range('0', '9'), Single('-'), Single('_')]);
    assert [Range('a', 'z')] + [Range('0', '9'), Single('-'), Single('_')] == ChannelNameClass;
  }

  /** The characters the class admits, written out. */
  predicate IsChannelNameChar(c: char) {
    'a' <= c <= 'z' || '0' <= c <= '9' || c == '-' || c == '_'
  }

  lemma ChannelNameClassMembers(c: char)
    ensures InClass(ChannelNameClass, c) <==> IsChannelNameChar(c)
  {
    if IsChannelNameChar(c) {
      if 'a' <= c <= 'z' {
        assert ChannelNameClass[0] in ChannelNameClass;
      } else if '0' <= c <= '9' {
        assert ChannelNameClass[1] in ChannelNameClass;
      } else if c == '-' {
        assert ChannelNameClass[2] in ChannelNameClass;
      } else {
        assert ChannelNameClass[3] in ChannelNameClass;
      }
    }
  }

  /** Whole-string match of `^[items]{min,max}$`: the string is consumed one class
      character at a time, at most `max` of them, and at least `min`. */
  function MatchesRepeat(items: seq<ClassItem>, min: nat, max: nat, s: string): (ok: bool)
    ensures ok ==> min <= |s| <= max
    ensures ok && s != [] ==> InClass(items, s[0])
    decreases |s|
  {
    if s == [] then min == 0
    else max > 0 && InClass(items, s[0])
         && MatchesRepeat(items, if min > 0 then min - 1 else 0, max - 1, s[1..])
  }

  /** The bounded repetition matches exactly the strings of `min` to `max` class characters. */
  lemma {:induction false} MatchesRepeatCharacterised(items: seq<ClassItem>, min: nat, max: nat, s: string)
    requires min <= max
    ensures MatchesRepeat(items, min, max, s) <==>
      min <= |s| <= max && forall i :: 0 <= i < |s| ==> InClass(items, s[i])
    decreases |s|
  {
    if s != [] && max > 0 {
      var t := s[1..];
      MatchesRepeatCharacterised(items, if min > 0 then min - 1 else 0, max - 1, t);
      if forall i :: 0 <= i < |t| ==> InClass(items, t[i]) {
        if InClass(items, s[0]) {
          forall i | 0 <= i < |s| ensures InClass(items, s[i]) {
            if i > 0 {
              assert s[i] == t[i - 1];
            }
          }
        }
      } else {
        var i :| 0 <= i < |t| && !InClass(items, t[i]);
        assert s[i + 1] == t[i];
      }
    }
  }

  /** What `edit` accepts as a name: 2 to 100 characters, each a lower-case ASCII
      letter, a digit, `-` or `_`. */
  predicate ValidChannelName(name: string) {
    2 <= |name| <= 100 && forall i :: 0 <= i < |name| ==> IsChannelNameChar(name[i])
  }

  /** `name.matches("^[a-z0-9-_]{2,100}$")`. */
  function MatchesChannelNamePattern(name: string): (ok: bool)
    ensures ok <==> ValidChannelName(name)
  {
    MatchesRepeatCharacterised(ChannelNameClass, 2, 100, name);
    forall i | 0 <= i < |name| {
      ChannelNameClassMembers(name[i]);
    }
    MatchesRepeat(ChannelNameClass, 2, 100, name)
  }

  /** The PATCH body `edit` sends. */
  datatype ChannelEditRequest = ChannelEditRequest(name: string, position: int, topic: Option<string>)

  /** `edit(name, position, topic)` up to the request: a missing name or one that does
      not match the pattern is refused; otherwise the request carries the arguments
      unchanged. */
  function Edit(name: Option<string>, position: int, topic: Option<string>): (r: Result<ChannelEditRequest, ChannelError>)
    ensures r.Failure? <==> name.None? || !ValidChannelName(name.value)
    ensures r.Failure? ==> r.error == IllegalChannelName
    ensures r.Success? ==> r.value == ChannelEditRequest(name.value, position, topic)
  {
    if name.None? || !MatchesChannelNamePattern(name.value) then Failure(IllegalChannelName)
    else Success(ChannelEditRequest(name.value, position, topic))
  }

  lemma EditExamples()
    ensures Edit(Some("general"), 0, None).Success?
    ensures Edit(Some("General"), 0, None) == Failure(IllegalChannelName)
    ensures Edit(Some("a"), 0, None) == Failure(IllegalChannelName)
    ensures Edit(None, 0, None) == Failure(IllegalChannelName)
  {
    assert !IsChannelNameChar("General"[0]);
  }

  // ---------------------------------------------------------------------------
  // The webhook name of `createWebhook`

  /** `String.length()`: UTF-16 code units, two for a character outside the Basic
      Multilingual Plane. */
  function Utf16Length(s: string): (n: nat)
    ensures |s| <= n <= 2 * |s|
    ensures (forall i :: 0 <= i < |s| ==> s[i] as int <= 0xFFFF) ==> n == |s|
  {
    if s == [] then 0
    else (if s[0] as int > 0xFFFF then 2 else 1) + Utf16Length(s[1..])
  }

  /** The name check of `createWebhook`: a missing name, or one shorter than 2 or
      longer than 32 UTF-16 units, is refused; any other name is passed on as is. */
  function CheckWebhookName(name: Option<string>): (r: Result<string, ChannelError>)
    ensures r.Success? <==> name.Some? && 2 <= Utf16Length(name.value) <= 32
    ensures r.Success? ==> r.value == name.value
    ensures r.Failure? ==> r.error == WebhookNameLength
  {
    if name.None? || Utf16Length(name.value) < 2 || Utf16Length(name.value) > 32 then Failure(WebhookNameLength)
    else Success(name.value)
  }

  /** For names in the Basic Multilingual Plane the bound is on characters; every
      name of 1 character, or of more than 32, is refused. */
  lemma CheckWebhookNameByCharacters(name: string)
    ensures |name| < 2 && (forall i :: 0 <= i < |name| ==> name[i] as int <= 0xFFFF) ==> CheckWebhookName(Some(name)).Failure?
    ensures |name| > 32 ==> CheckWebhookName(Some(name)).Failure?
    ensures 2 <= |name| <= 16 ==> CheckWebhookName(Some(name)).Success?
  {
  }

  // ---------------------------------------------------------------------------
  // The mention string

  /** `mention()`: `<#`, the channel id, `>`. */
  function Mention(channelId: string): (m: string)
    ensures |m| == |channelId| + 3
    ensures m[..2] == "<#" && m[|m| - 1] == '>'
    ensures m[2..|m| - 1] == channelId
  {
    "<#" + channelId + ">"
  }

  /** Reads a channel mention back: the text between `<#` and the final `>`. */
  function ParseMention(m: string): (id: Option<string>)
    ensures id.Some? ==> |m| == |id.value| + 3
  {
    if |m| >= 3 && m[..2] == "<#" && m[|m| - 1] == '>' then Some(m[2..|m| - 1]) else None
  }

  lemma MentionRoundTrip(channelId: string)
    ensures ParseMention(Mention(channelId)) == Some(channelId)
  {
  }

  /** Different channels have different mentions. */
  lemma MentionInjective(a: string, b: string)
    ensures Mention(a) == Mention(b) ==> a == b
  {
    if Mention(a) == Mention(b) {
      MentionRoundTrip(a);
      MentionRoundTrip(b);
    }
  }

  // ---------------------------------------------------------------------------
  // The channel order of `getPosition`

  const IntMin: int := -0x8000_0000
  const IntMax: int := 0x7FFF_FFFF

  /** A Java `int`. */
  type Int32 = x: int | IntMin <= x <= IntMax

  /** Java `int` arithmetic: the result is reduced into the 32-bit range. */
  function Wrap32(x: int): (r: Int32)
    ensures IntMin <= x <= IntMax ==> r == x
    ensures (r - x) % 0x1_0000_0000 == 0
  {
    (x - IntMin) % 0x1_0000_0000 + IntMin
  }

  /** What the sort compares of a channel: its cached position and its creation
      time (as an instant count; only its order matters). */
  datatype ChannelOrder = ChannelOrder(position: Int32, created: int)

  /** A comparison result in the `Comparable` convention. */
  function CompareInts(a: int, b: int): (c: int)
    ensures c < 0 <==> a < b
    ensures c == 0 <==> a == b
    ensures c > 0 <==> a > b
  {
    if a < b then -1 else if a == b then 0 else 1
  }

  /** The comparator as written: equal positions put the newer channel first;
      otherwise `originalPos1 - originalPos2` in 32-bit arithmetic. */
  function CompareAsWritten(c1: ChannelOrder, c2: ChannelOrder): (r: Int32)
    ensures c1.position == c2.position ==> (r < 0 <==> c1.created > c2.created)
    ensures c1.position != c2.position ==> r == Wrap32(c1.position - c2.position)
  {
    if c1.position == c2.position then CompareInts(c2.created, c1.created)
    else Wrap32(c1.position - c2.position)
  }

  /** Two channels with positions far apart: each compares as "less" than the
      other, which breaks the comparator contract the sort relies on. */
  lemma CompareAsWrittenOverflows()
    ensures var high, low := ChannelOrder(IntMax, 0), ChannelOrder(-1, 0);
      CompareAsWritten(high, low) < 0 && CompareAsWritten(low, high) < 0
  {
    assert Wrap32(IntMax - -1) == IntMin;
    assert Wrap32(-1 - IntMax) == IntMin;
  }

  /** The comparator the sort needs: by position, and on equal positions the newer
      channel first. */
  function CompareCorrected(c1: ChannelOrder, c2: ChannelOrder): (r: int)
    ensures r < 0 <==> c1.position < c2.position || (c1.position == c2.position && c1.created > c2.created)
    ensures r == 0 <==> c1.position == c2.position && c1.created == c2.created
    ensures -1 <= r <= 1
  {
    if c1.position == c2.position then CompareInts(c2.created, c1.created)
    else CompareInts(c1.position, c2.position)
  }

  /** The corrected comparator meets the `Comparator` contract: the sign flips with
      the arguments, "before" is transitive, and equal-comparing channels compare
      alike against every third. */
  lemma CompareCorrectedIsTotalOrder(x: ChannelOrder, y: ChannelOrder, z: ChannelOrder)
    ensures CompareCorrected(x, y) == -CompareCorrected(y, x)
    ensures CompareCorrected(x, y) < 0 && CompareCorrected(y, z) < 0 ==> CompareCorrected(x, z) < 0
    ensures CompareCorrected(x, y) == 0 ==> CompareCorrected(x, z) == CompareCorrected(y, z)
  {
  }

  /** The corrected comparator agrees in sign with the written one wherever the
      written one does not overflow. */
  lemma CorrectedAgreesWithoutOverflow(c1: ChannelOrder, c2: ChannelOrder)
    requires IntMin <= c1.position - c2.position <= IntMax
    ensures CompareCorrected(c1, c2) < 0 <==> CompareAsWritten(c1, c2) < 0
    ensures CompareCorrected(c1, c2) == 0 <==> CompareAsWritten(c1, c2) == 0
  {
  }
}
