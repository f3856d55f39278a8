/**
 * The whitelist and ban list of a Minecraft server (`whitelist.json` and
 * `banned-players.json`). Each file is a JSON list of player records; here a
 * file's loaded contents are a `seq<Entry>` handed in, and what an operation
 * would write back is returned as `Reply.saved` (`None` when nothing is saved).
 * The name-to-id lookup against the remote profile service is the input
 * `lookup`: the raw 32-character id it answered with, or `None` when it failed.
 */
module Players {
  import opened Wrappers
  import opened Text

  /** The extra fields of a `banned-players.json` record. */
  datatype BanInfo = BanInfo(created: string, source: string, expires: string, reason: Option<string>)

  /** One record of either list; a field the JSON object lacks is `None`. */
  datatype Entry = Entry(uuid: Option<string>, name: Option<string>, ban: Option<BanInfo>)

  /** The `(success, message)` pair an operation returns, with the list it saves, if any. */
  datatype Reply = Reply(ok: bool, message: string, saved: Option<seq<Entry>>)

  const BanCreated := "2024-01-01 00:00:00 +0000"
  const BanSource := "Console"
  const BanExpires := "forever"
  const DefaultBanReason := "Banned by operator"

  /** `entry.get('name', '').lower() == username.lower()`. */
  predicate NameMatches(e: Entry, username: string) {
    Lower(e.name.GetOr("")) == Lower(username)
  }

  /** Some record of `list` carries `username`, ignoring letter case. */
  predicate Listed(list: seq<Entry>, username: string) {
    exists i :: 0 <= i < |list| && NameMatches(list[i], username)
  }

  /** Names equal ignoring case match the same records. */
  lemma SameNameMatchesSame(e: Entry, u: string, u': string)
    requires Lower(u) == Lower(u')
    ensures NameMatches(e, u) <==> NameMatches(e, u')
  {
  }

  // ---------------------------------------------------------------------------
  // The id formatting of `_get_uuid`
  // ---------------------------------------------------------------------------

  /** Python's `s[i:j]` for `0 <= i <= j`: both ends are clamped to the length. */
  function Slice(s: string, i: nat, j: nat): (r: string)
    requires i <= j
    ensures |r| == (if j <= |s| then j - i else if i <= |s| then |s| - i else 0)
  {
    var a := if i <= |s| then i else |s|;
    var b := if j <= |s| then j else |s|;
    s[a..b]
  }

  /** `s[i:]`. */
  function SliceFrom(s: string, i: nat): string {
    if i <= |s| then s[i..] else []
  }

  /** The 8-4-4-4-12 hyphenated form `_get_uuid` builds from the raw id. */
  function FormatUuid(raw: string): string {
    Slice(raw, 0, 8) + "-" + (Slice(raw, 8, 12) + "-" + (Slice(raw, 12, 16) + "-" +
    (Slice(raw, 16, 20) + "-" + SliceFrom(raw, 20))))
  }

  /** What `_get_uuid` returns: the formatted id when the lookup answered, `None` otherwise. */
  function GetUuid(lookup: Option<string>): (r: Option<string>)
    ensures r.Some? <==> lookup.Some?
    ensures r.Some? ==> r.value != []
  {
    match lookup
    case Some(raw) => Some(FormatUuid(raw))
    case None => None
  }

  /** `s` with every `-` deleted. */
  function RemoveHyphens(s: string): string {
    if s == [] then [] else (if s[0] == '-' then [] else [s[0]]) + RemoveHyphens(s[1..])
  }

  lemma {:induction false} RemoveHyphensAppend(a: string, b: string)
    ensures RemoveHyphens(a + b) == RemoveHyphens(a) + RemoveHyphens(b)
  {
    if a != [] {
      assert (a + b)[0] == a[0];
      assert (a + b)[1..] == a[1..] + b;
      RemoveHyphensAppend(a[1..], b);
    } else {
      assert a + b == b;
    }
  }

  lemma {:induction false} RemoveHyphensFree(s: string)
    requires '-' !in s
    ensures RemoveHyphens(s) == s
  {
    if s != [] {
      RemoveHyphensFree(s[1..]);
    }
  }

  /** A 32-character id becomes 36 characters with hyphens exactly at 8, 13, 18 and 23. */
  lemma FormatUuidLayout(raw: string)
    requires |raw| == 32
    ensures var f := FormatUuid(raw);
      |f| == 36 &&
      f[8] == '-' && f[13] == '-' && f[18] == '-' && f[23] == '-' &&
      f[..8] == raw[..8] && f[9..13] == raw[8..12] && f[14..18] == raw[12..16] &&
      f[19..23] == raw[16..20] && f[24..] == raw[20..]
  {
  }

  lemma RemoveLeadingHyphen(b: string)
    ensures RemoveHyphens("-" + b) == RemoveHyphens(b)
  {
    var s := "-" + b;
    assert s[0] == '-' && s[1..] == b;
  }

  /** A hyphen between two pieces, the first hyphen-free, disappears. */
  lemma RemoveHyphenAfter(a: string, b: string)
    requires '-' !in a
    ensures RemoveHyphens(a + "-" + b) == a + RemoveHyphens(b)
  {
    var hb := "-" + b;
    RemoveHyphensFree(a);
    RemoveHyphensAppend(a, hb);
    RemoveLeadingHyphen(b);
    assert a + "-" + b == a + hb;
  }

  /** Deleting the hyphens between five hyphen-free pieces concatenates them. */
  lemma RemoveHyphensBetween(p0: string, p1: string, p2: string, p3: string, p4: string)
    requires '-' !in p0 && '-' !in p1 && '-' !in p2 && '-' !in p3 && '-' !in p4
    ensures RemoveHyphens(p0 + "-" + (p1 + "-" + (p2 + "-" + (p3 + "-" + p4)))) == p0 + (p1 + (p2 + (p3 + p4)))
  {
    var s3 := p3 + "-" + p4;
    var s2 := p2 + "-" + s3;
    var s1 := p1 + "-" + s2;
    assert RemoveHyphens(s3) == p3 + p4 by {
      RemoveHyphensFree(p4);
      RemoveHyphenAfter(p3, p4);
    }
    RemoveHyphenAfter(p2, s3);
    RemoveHyphenAfter(p1, s2);
    RemoveHyphenAfter(p0, s1);
  }

  /** The five slices `_get_uuid` takes cover the raw id, in order, whatever its length. */
  lemma SlicesCover(raw: string)
    ensures Slice(raw, 0, 8) + (Slice(raw, 8, 12) + (Slice(raw, 12, 16) + (Slice(raw, 16, 20) + SliceFrom(raw, 20)))) == raw
  {
  }

  /** A slice of a hyphen-free string is hyphen-free. */
  lemma SliceFree(raw: string, i: nat, j: nat)
    requires '-' !in raw && i <= j
    ensures '-' !in Slice(raw, i, j) && '-' !in SliceFrom(raw, i)
  {
    var a := if i <= |raw| then i else |raw|;
    var b := if j <= |raw| then j else |raw|;
    assert forall k :: 0 <= k < b - a ==> raw[a..b][k] == raw[a + k];
  }

  /** Deleting the hyphens of the formatted id gives back a raw id that had none, whatever its length. */
  lemma FormatUuidRoundTrip(raw: string)
    requires '-' !in raw
    ensures RemoveHyphens(FormatUuid(raw)) == raw
  {
    SliceFree(raw, 0, 8);
    SliceFree(raw, 8, 12);
    SliceFree(raw, 12, 16);
    SliceFree(raw, 16, 20);
    SliceFree(raw, 20, 20);
    RemoveHyphensBetween(Slice(raw, 0, 8), Slice(raw, 8, 12), Slice(raw, 12, 16), Slice(raw, 16, 20), SliceFrom(raw, 20));
    SlicesCover(raw);
  }

  // ---------------------------------------------------------------------------
  // Adding: the duplicate scan, then an append
  // ---------------------------------------------------------------------------

  /** The duplicate scan of `add_to_whitelist` and `ban_player`: a loop over the records. */
  method ContainsName(list: seq<Entry>, username: string) returns (found: bool)
    ensures found <==> Listed(list, username)
  {
    for i := 0 to |list|
      invariant forall j :: 0 <= j < i ==> !NameMatches(list[j], username)
    {
      if Lower(list[i].name.GetOr("")) == Lower(username) {
        return true;
      }
    }
    return false;
  }

  /** The record `add_to_whitelist` appends. */
  function WhitelistEntry(uuid: string, username: string): Entry {
    Entry(Some(uuid), Some(username), None)
  }

  /** The record `ban_player` appends. */
  function BanEntry(uuid: string, username: string, reason: string): Entry {
    Entry(Some(uuid), Some(username), Some(BanInfo(BanCreated, BanSource, BanExpires, Some(reason))))
  }

  /** `add_to_whitelist(username)` over the loaded `whitelist`. */
  method AddToWhitelist(whitelist: seq<Entry>, username: string, lookup: Option<string>) returns (r: Reply)
    ensures lookup.None? ==> r == Reply(false, "Could not resolve UUID", None)
    ensures lookup.Some? && Listed(whitelist, username) ==> r == Reply(false, "Player already whitelisted", None)
    ensures lookup.Some? && !Listed(whitelist, username) ==>
      r == Reply(true, "Player added", Some(whitelist + [WhitelistEntry(FormatUuid(lookup.value), username)]))
  {
    var uuid := GetUuid(lookup);
    if uuid.None? {
      return Reply(false, "Could not resolve UUID", None);
    }
    var found := ContainsName(whitelist, username);
    if found {
      return Reply(false, "Player already whitelisted", None);
    }
    r := Reply(true, "Player added", Some(whitelist + [WhitelistEntry(uuid.value, username)]));
  }

  /** `ban_player(username, reason)` over the loaded ban list; `reason` is `None` when the argument is omitted, which gives `"Banned by operator"`. */
  method BanPlayer(bans: seq<Entry>, username: string, reason: Option<string>, lookup: Option<string>) returns (r: Reply)
    ensures lookup.None? ==> r == Reply(false, "Could not resolve UUID", None)
    ensures lookup.Some? && Listed(bans, username) ==> r == Reply(false, "Player already banned", None)
    ensures lookup.Some? && !Listed(bans, username) && reason.Some? ==>
      r == Reply(true, "Player banned", Some(bans + [BanEntry(FormatUuid(lookup.value), username, reason.value)]))
    ensures lookup.Some? && !Listed(bans, username) && reason.None? ==>
      r == Reply(true, "Player banned", Some(bans + [BanEntry(FormatUuid(lookup.value), username, DefaultBanReason)]))
  {
    var uuid := GetUuid(lookup);
    if uuid.None? {
      return Reply(false, "Could not resolve UUID", None);
    }
    var found := ContainsName(bans, username);
    if found {
      return Reply(false, "Player already banned", None);
    }
    r := Reply(true, "Player banned", Some(bans + [BanEntry(uuid.value, username, reason.GetOr(DefaultBanReason))]));
  }

  // ---------------------------------------------------------------------------
  // Removing: a filter, then a length comparison
  // ---------------------------------------------------------------------------

  /** `[p for p in list if p.get('name', '').lower() != username.lower()]`. */
  function Without(list: seq<Entry>, username: string): seq<Entry> {
    if list == [] then []
    else
      var last := list[|list| - 1];
      Without(list[..|list| - 1], username) + (if NameMatches(last, username) then [] else [last])
  }

  /** The filter keeps exactly the records that do not match, and never grows the list. */
  lemma {:induction false} WithoutSpec(list: seq<Entry>, username: string)
    ensures |Without(list, username)| <= |list|
    ensures forall e :: e in Without(list, username) <==> e in list && !NameMatches(e, username)
  {
    if list != [] {
      WithoutSpec(list[..|list| - 1], username);
      assert list == list[..|list| - 1] + [list[|list| - 1]];
    }
  }

  /** The filter works record by record, so the kept records stay in their order. */
  lemma {:induction false} WithoutAppend(a: seq<Entry>, b: seq<Entry>, username: string)
    ensures Without(a + b, username) == Without(a, username) + Without(b, username)
    decreases |b|
  {
    if b == [] {
      assert a + b == a;
    } else {
      var b' := b[..|b| - 1];
      assert (a + b)[..|a + b| - 1] == a + b';
      WithoutAppend(a, b', username);
    }
  }

  /** The filter removes something exactly when some record matches. */
  lemma {:induction false} WithoutShrinks(list: seq<Entry>, username: string)
    ensures |Without(list, username)| == |list| <==> !Listed(list, username)
  {
    if list != [] {
      var front := list[..|list| - 1];
      WithoutShrinks(front, username);
      WithoutSpec(front, username);
      if Listed(front, username) {
        var i :| 0 <= i < |front| && NameMatches(front[i], username);
        assert NameMatches(list[i], username);
      }
      if Listed(list, username) && !NameMatches(list[|list| - 1], username) {
        var i :| 0 <= i < |list| && NameMatches(list[i], username);
        assert i < |front| && NameMatches(front[i], username);
      }
    }
  }

  /** A list with no matching record passes the filter unchanged. */
  lemma {:induction false} WithoutUnlisted(list: seq<Entry>, username: string)
    requires !Listed(list, username)
    ensures Without(list, username) == list
  {
    if list != [] {
      var front := list[..|list| - 1];
      assert !Listed(front, username) by {
        forall i | 0 <= i < |front| ensures !NameMatches(front[i], username) {
          assert front[i] == list[i];
        }
      }
      WithoutUnlisted(front, username);
      assert !NameMatches(list[|list| - 1], username);
    }
  }

  /** `remove_from_whitelist(username)` over the loaded `whitelist`. */
  function RemoveFromWhitelist(whitelist: seq<Entry>, username: string): (r: Reply)
    ensures r.ok <==> Listed(whitelist, username)
    ensures r.ok ==> r == Reply(true, "Player removed", Some(Without(whitelist, username)))
    ensures !r.ok ==> r == Reply(false, "Player not found", None)
  {
    var kept := Without(whitelist, username);
    WithoutShrinks(whitelist, username);
    if |whitelist| == |kept| then Reply(false, "Player not found", None)
    else Reply(true, "Player removed", Some(kept))
  }

  /** `unban_player(username)` over the loaded ban list. */
  function UnbanPlayer(bans: seq<Entry>, username: string): (r: Reply)
    ensures r.ok <==> Listed(bans, username)
    ensures r.ok ==> r == Reply(true, "Player unbanned", Some(Without(bans, username)))
    ensures !r.ok ==> r == Reply(false, "Player not found", None)
  {
    var kept := Without(bans, username);
    WithoutShrinks(bans, username);
    if |bans| == |kept| then Reply(false, "Player not found", None)
    else Reply(true, "Player unbanned", Some(kept))
  }

  // ---------------------------------------------------------------------------
  // Round trips
  // ---------------------------------------------------------------------------

  /** Removing, under any letter case, the one record just appended gives the list back. */
  lemma RemoveAppended(list: seq<Entry>, e: Entry, username: string, username': string)
    requires !Listed(list, username)
    requires e.name == Some(username) && Lower(username') == Lower(username)
    ensures Without(list + [e], username') == list
  {
    assert !Listed(list, username') by {
      forall i | 0 <= i < |list| ensures !NameMatches(list[i], username') {
        SameNameMatchesSame(list[i], username, username');
      }
    }
    WithoutAppend(list, [e], username');
    WithoutUnlisted(list, username');
    assert [e][..0] == [];
  }

  /** A successful add followed by a remove of the same name, in any letter case, restores the whitelist. */
  lemma AddThenRemove(whitelist: seq<Entry>, uuid: string, username: string, username': string)
    requires !Listed(whitelist, username) && Lower(username') == Lower(username)
    ensures RemoveFromWhitelist(whitelist + [WhitelistEntry(uuid, username)], username') ==
      Reply(true, "Player removed", Some(whitelist))
  {
    var added := whitelist + [WhitelistEntry(uuid, username)];
    RemoveAppended(whitelist, WhitelistEntry(uuid, username), username, username');
    assert NameMatches(added[|whitelist|], username');
  }

  /** A successful ban followed by an unban of the same name, in any letter case, restores the ban list. */
  lemma BanThenUnban(bans: seq<Entry>, uuid: string, username: string, reason: string, username': string)
    requires !Listed(bans, username) && Lower(username') == Lower(username)
    ensures UnbanPlayer(bans + [BanEntry(uuid, username, reason)], username') ==
      Reply(true, "Player unbanned", Some(bans))
  {
    var added := bans + [BanEntry(uuid, username, reason)];
    RemoveAppended(bans, BanEntry(uuid, username, reason), username, username');
    assert NameMatches(added[|bans|], username');
  }

  /** After a successful add the name is listed, so adding it again, in any letter case, is refused. */
  lemma AddedIsListed(list: seq<Entry>, e: Entry, username: string, username': string)
    requires e.name == Some(username) && Lower(username') == Lower(username)
    ensures Listed(list + [e], username')
  {
    assert NameMatches((list + [e])[|list|], username');
  }

  /** A successful remove leaves no record of the name, so removing it again reports "not found". */
  lemma RemovedIsUnlisted(list: seq<Entry>, username: string)
    ensures !Listed(Without(list, username), username)
  {
    WithoutSpec(list, username);
    var kept := Without(list, username);
    forall i | 0 <= i < |kept| ensures !NameMatches(kept[i], username) {
      assert kept[i] in kept;
    }
  }
}
