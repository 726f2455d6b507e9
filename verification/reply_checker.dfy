/** Reply detection (`ReplyChecker.check_replies`): for every log entry still
    waiting for an answer, search the inbox for mail from its recipient and
    report the entry's uuid for each message dated strictly after the send.

    The IMAP server is an input: whether connect, login and select succeed,
    and for each searched sender what the search and the fetches return.
    Dates are integer timestamps; the parse of the ISO send date is an input
    function that may fail.
 */
module ReplyChecker {
  import opened Storage
  import opened History

  /** What fetching one message id yields: the parsed `Date` header of each
      message part (`None` when the header is missing or does not parse), or
      an exception. */
  datatype Fetch = Fetched(dates: seq<Option<int>>) | FetchError

  /** What the `FROM` search for one sender yields: status OK with the
      matching messages in mailbox order (oldest first), a status other than
      OK, or an exception. */
  datatype Search = Found(messages: seq<Fetch>) | NotOk | SearchError

  /** The mailbox as the scan sees it. `opens` says whether connect, login and
      select all succeed. A sender the map does not name has no messages. */
  datatype Mailbox = Mailbox(opens: bool, bySender: map<string, Search>)

  function SearchFrom(box: Mailbox, sender: string): Search {
    if sender in box.bySender then box.bySender[sender] else Found([])
  }

  /** The status the scan compares against, exactly as the checker spells it:
      "EnvoyÃ©", the UTF-8 bytes of "Envoyé" read as Latin-1. */
  const SentLabel: string := "Envoy\U{C3}\U{A9}"

  /** An entry is scanned when its `replied` flag is not true and its status
      is the given sent status. */
  predicate Eligible(e: Entry, sentStatus: string) {
    e.replied != Some(true) && e.status == sentStatus
  }

  /** The reply heuristic: a message counts when its date parsed and is
      strictly later than the send date. */
  predicate IsReply(date: Option<int>, sent: int) {
    date.Some? && date.value > sent
  }

  /** Some part of a fetched message counts as a reply. */
  predicate HasReply(dates: seq<Option<int>>, sent: int) {
    exists k :: 0 <= k < |dates| && IsReply(dates[k], sent)
  }

  function Reversed<T>(s: seq<T>): (r: seq<T>)
    ensures |r| == |s|
    ensures forall k :: 0 <= k < |s| ==> r[k] == s[|s| - 1 - k]
  {
    seq(|s|, k requires 0 <= k < |s| => s[|s| - 1 - k])
  }

  /** The uuids one entry's scan appends, given its messages newest first:
      one per message with a qualifying part, until a fetch raises. */
  function Scan(newestFirst: seq<Fetch>, sent: int, uuid: string): (r: seq<string>)
    ensures |r| <= |newestFirst|
    ensures forall x :: x in r ==> x == uuid
    decreases |newestFirst|
  {
    if newestFirst == [] then []
    else match newestFirst[0]
      case FetchError => []
      case Fetched(dates) =>
        (if HasReply(dates, sent) then [uuid] else []) + Scan(newestFirst[1..], sent, uuid)
  }

  /** The uuids one entry contributes when entries with status `sentStatus` are
      the ones scanned. */
  function EntryReplies(e: Entry, box: Mailbox, parseIso: string -> Option<int>, sentStatus: string): (r: seq<string>)
    ensures forall x :: x in r ==> x == e.uuid
    ensures !Eligible(e, sentStatus) || e.email == [] || e.date == [] ==> r == []
  {
    if !Eligible(e, sentStatus) || e.email == [] || e.date == [] then []
    else match parseIso(e.date)
      case None => []
      case Some(sent) =>
        match SearchFrom(box, e.email)
        case Found(messages) => Scan(Reversed(messages), sent, e.uuid)
        case NotOk => []
        case SearchError => []
  }

  /** The uuids a scan over an open mailbox returns, in history order. */
  function RepliesOpen(entries: seq<Entry>, box: Mailbox, parseIso: string -> Option<int>, sentStatus: string): seq<string>
  {
    if entries == [] then []
    else RepliesOpen(entries[..|entries| - 1], box, parseIso, sentStatus)
         + EntryReplies(entries[|entries| - 1], box, parseIso, sentStatus)
  }

  /** What `check_replies` returns: nothing when the mailbox cannot be opened. */
  function Replies(entries: seq<Entry>, box: Mailbox, parseIso: string -> Option<int>, sentStatus: string): (r: seq<string>)
    ensures !box.opens || entries == [] ==> r == []
  {
    if box.opens then RepliesOpen(entries, box, parseIso, sentStatus) else []
  }

  /** `check_replies`, with the checker's own status literal. */
  method CheckReplies(entries: seq<Entry>, box: Mailbox, parseIso: string -> Option<int>)
    returns (replied: seq<string>)
    ensures replied == Replies(entries, box, parseIso, SentLabel)
  {
    replied := [];
    if !box.opens {
      return [];
    }
    for i := 0 to |entries|
      invariant replied == RepliesOpen(entries[..i], box, parseIso, SentLabel)
    {
      var entry := entries[i];
      assert entries[..i + 1][..i] == entries[..i];
      if entry.replied == Some(true) || entry.status != SentLabel {
        continue;
      }
      if entry.email == [] || entry.date == [] {
        continue;
      }
      var parsed := parseIso(entry.date);
      if parsed.None? {
        continue;
      }
      var search := SearchFrom(box, entry.email);
      if !search.Found? {
        continue;
      }
      var ids := search.messages;
      if ids == [] {
        continue;
      }
      var appended := ScanMessages(ids, parsed.value, entry.uuid);
      replied := replied + appended;
    }
    assert entries[..|entries|] == entries;
  }

  /** One step of the scan: a fetch error ends it, a fetched message adds the
      uuid when one of its parts qualifies. */
  lemma ScanStep(newestFirst: seq<Fetch>, i: nat, sent: int, uuid: string)
    requires i < |newestFirst|
    ensures newestFirst[i].FetchError? ==> Scan(newestFirst[i..], sent, uuid) == []
    ensures newestFirst[i].Fetched? ==>
      Scan(newestFirst[i..], sent, uuid) ==
        (if HasReply(newestFirst[i].dates, sent) then [uuid] else []) + Scan(newestFirst[i + 1..], sent, uuid)
  {
    assert newestFirst[i..][0] == newestFirst[i];
    assert newestFirst[i..][1..] == newestFirst[i + 1..];
  }

  /** The loop invariant of `ScanMessages` carried over one fetched message. */
  lemma ScanPrefixGrows(newestFirst: seq<Fetch>, i: nat, sent: int, uuid: string, done: seq<string>, step: seq<string>)
    requires i < |newestFirst| && newestFirst[i].Fetched?
    requires step == if HasReply(newestFirst[i].dates, sent) then [uuid] else []
    requires Scan(newestFirst, sent, uuid) == done + Scan(newestFirst[i..], sent, uuid)
    ensures Scan(newestFirst, sent, uuid) == (done + step) + Scan(newestFirst[i + 1..], sent, uuid)
  {
    ScanStep(newestFirst, i, sent, uuid);
  }

  /** The body of the scan for one entry: walk the message ids newest first,
      append the uuid once for each message with a qualifying part, and stop
      at a fetch error, keeping what was appended before it. */
  method ScanMessages(ids: seq<Fetch>, sent: int, uuid: string) returns (appended: seq<string>)
    ensures appended == Scan(Reversed(ids), sent, uuid)
  {
    appended := [];
    ghost var newest := Reversed(ids);
    ghost var i := 0;
    var j := |ids|;
    while j > 0
      invariant 0 <= j <= |ids| && i == |ids| - j
      invariant Scan(newest, sent, uuid) == appended + Scan(newest[i..], sent, uuid)
    {
      var fetch := ids[j - 1];
      assert fetch == newest[i];
      ScanStep(newest, i, sent, uuid);
      if fetch.FetchError? {
        break;
      }
      var found := PartsHaveReply(fetch.dates, sent);
      var step := if found then [uuid] else [];
      ScanPrefixGrows(newest, i, sent, uuid, appended, step);
      appended := appended + step;
      j := j - 1;
      i := i + 1;
    }
  }

  /** The loop over one message's parts: look for a part whose date parsed
      and is later than the send date, and stop at the first one (the
      `break`, which leaves only this loop). */
  method PartsHaveReply(dates: seq<Option<int>>, sent: int) returns (found: bool)
    ensures found <==> HasReply(dates, sent)
  {
    found := false;
    var k := 0;
    while k < |dates|
      invariant 0 <= k <= |dates|
      invariant forall m :: 0 <= m < k ==> !IsReply(dates[m], sent)
    {
      var date := dates[k];
      if date.Some? && date.value > sent {
        found := true;
        break;
      }
      k := k + 1;
    }
  }

  /** Entries are reported in history order: the scan of a concatenation is
      the concatenation of the scans. */
  lemma {:induction false} RepliesConcat(a: seq<Entry>, b: seq<Entry>, box: Mailbox, parseIso: string -> Option<int>, sentStatus: string)
    ensures RepliesOpen(a + b, box, parseIso, sentStatus) == RepliesOpen(a, box, parseIso, sentStatus) + RepliesOpen(b, box, parseIso, sentStatus)
    decreases |b|
  {
    if b != [] {
      var b' := b[..|b| - 1];
      assert (a + b)[..|a + b| - 1] == a + b';
      RepliesConcat(a, b', box, parseIso, sentStatus);
    } else {
      assert a + b == a;
    }
  }

  /** A fetch error ends the entry's scan: the uuids appended for newer
      messages stay, older messages are never examined. */
  lemma {:induction false} ScanStopsAtError(newestFirst: seq<Fetch>, sent: int, uuid: string, k: nat)
    requires k < |newestFirst| && newestFirst[k].FetchError?
    ensures Scan(newestFirst, sent, uuid) == Scan(newestFirst[..k], sent, uuid)
  {
    if k > 0 {
      assert newestFirst[1..][..k - 1] == newestFirst[..k][1..];
      ScanStopsAtError(newestFirst[1..], sent, uuid, k - 1);
    }
  }

  /** Everything a scan appends is the entry's uuid, once for each message
      (newest first, before any fetch error) that has a qualifying part; so a
      uuid never comes from a message dated at or before the send. */
  lemma {:induction false} ScanYieldsOnlyReplies(newestFirst: seq<Fetch>, sent: int, uuid: string)
    ensures var r := Scan(newestFirst, sent, uuid);
      && (forall u :: u in r ==> u == uuid)
      && |r| <= |newestFirst|
      && (r != [] ==> exists k :: 0 <= k < |newestFirst| && newestFirst[k].Fetched? && HasReply(newestFirst[k].dates, sent))
  {
    if newestFirst != [] && newestFirst[0].Fetched? {
      ScanYieldsOnlyReplies(newestFirst[1..], sent, uuid);
      var r' := Scan(newestFirst[1..], sent, uuid);
      if r' != [] {
        var k :| 0 <= k < |newestFirst[1..]| && newestFirst[1..][k].Fetched? && HasReply(newestFirst[1..][k].dates, sent);
        assert newestFirst[k + 1] == newestFirst[1..][k];
      }
    }
  }

  /** A message with a qualifying part, with no fetch error among the newer
      messages, puts the uuid in the scan's result. */
  lemma {:induction false} ScanFindsReply(newestFirst: seq<Fetch>, sent: int, uuid: string, k: nat)
    requires k < |newestFirst|
    requires forall m :: 0 <= m < k ==> newestFirst[m].Fetched?
    requires newestFirst[k].Fetched? && HasReply(newestFirst[k].dates, sent)
    ensures uuid in Scan(newestFirst, sent, uuid)
  {
    if k > 0 {
      ScanFindsReply(newestFirst[1..], sent, uuid, k - 1);
    }
  }

  /** An entry contributes only its own uuid, and only when it is eligible,
      has an email and a parsable date, the search succeeded, and some
      fetched message from that sender is dated strictly after the send. */
  lemma EntryRepliesNeedLaterMessage(e: Entry, box: Mailbox, parseIso: string -> Option<int>, sentStatus: string)
    ensures var r := EntryReplies(e, box, parseIso, sentStatus);
      && (forall u :: u in r ==> u == e.uuid)
      && (r != [] ==>
            && Eligible(e, sentStatus) && e.email != [] && e.date != []
            && parseIso(e.date).Some?
            && SearchFrom(box, e.email).Found?
            && var messages := SearchFrom(box, e.email).messages;
               exists k :: 0 <= k < |messages| && messages[k].Fetched?
                 && HasReply(messages[k].dates, parseIso(e.date).value))
  {
    if Eligible(e, sentStatus) && e.email != [] && e.date != [] && parseIso(e.date).Some? && SearchFrom(box, e.email).Found? {
      var messages := SearchFrom(box, e.email).messages;
      var sent := parseIso(e.date).value;
      ScanYieldsOnlyReplies(Reversed(messages), sent, e.uuid);
      if EntryReplies(e, box, parseIso, sentStatus) != [] {
        var k :| 0 <= k < |messages| && Reversed(messages)[k].Fetched? && HasReply(Reversed(messages)[k].dates, sent);
        assert messages[|messages| - 1 - k] == Reversed(messages)[k];
      }
    }
  }

  /** Every uuid in the result belongs to an eligible entry of the input. */
  lemma {:induction false} RepliesComeFromEligibleEntries(entries: seq<Entry>, box: Mailbox, parseIso: string -> Option<int>, sentStatus: string)
    ensures forall u :: u in Replies(entries, box, parseIso, sentStatus) ==>
      exists i :: 0 <= i < |entries| && entries[i].uuid == u && Eligible(entries[i], sentStatus)
    decreases |entries|
  {
    if box.opens && entries != [] {
      var init := entries[..|entries| - 1];
      var last := entries[|entries| - 1];
      RepliesComeFromEligibleEntries(init, box, parseIso, sentStatus);
      EntryRepliesNeedLaterMessage(last, box, parseIso, sentStatus);
      forall u | u in Replies(entries, box, parseIso, sentStatus)
        ensures exists i :: 0 <= i < |entries| && entries[i].uuid == u && Eligible(entries[i], sentStatus)
      {
        if u in Replies(init, box, parseIso, sentStatus) {
          var i :| 0 <= i < |init| && init[i].uuid == u && Eligible(init[i], sentStatus);
          assert entries[i] == init[i];
        } else {
          assert entries[|entries| - 1].uuid == u;
        }
      }
    }
  }

  /** A scanned entry whose newest message from the recipient is dated after
      the send is reported. */
  lemma NewestLaterMessageIsReply(e: Entry, box: Mailbox, parseIso: string -> Option<int>, sentStatus: string, sent: int)
    requires Eligible(e, sentStatus) && e.email != [] && e.date != []
    requires parseIso(e.date) == Some(sent)
    requires SearchFrom(box, e.email).Found?
    requires var messages := SearchFrom(box, e.email).messages;
      && messages != [] && messages[|messages| - 1].Fetched?
      && HasReply(messages[|messages| - 1].dates, sent)
    ensures e.uuid in EntryReplies(e, box, parseIso, sentStatus)
  {
    var messages := SearchFrom(box, e.email).messages;
    ScanFindsReply(Reversed(messages), sent, e.uuid, 0);
  }

  /** The checker never scans the entries the send flow writes: their status
      is "Envoyé" or "Échec", neither of which equals the literal it compares
      against, so a scan over such entries returns nothing. */
  lemma {:induction false} AppEntriesNeverScanned(entries: seq<Entry>, box: Mailbox, parseIso: string -> Option<int>)
    requires forall i :: 0 <= i < |entries| ==> entries[i].status in {StatusSent, StatusFailed, DefaultStatus}
    ensures Replies(entries, box, parseIso, SentLabel) == []
    decreases |entries|
  {
    if box.opens && entries != [] {
      var init := entries[..|entries| - 1];
      assert |StatusSent| != |SentLabel|;
      assert StatusFailed[0] != SentLabel[0];
      assert DefaultStatus[0] != SentLabel[0];
      AppEntriesNeverScanned(init, box, parseIso);
    }
  }

  /** Because the `break` leaves only the loop over message parts, an entry
      with two later messages is reported twice. */
  lemma TwoLaterMessagesTwoReports(e: Entry, parseIso: string -> Option<int>, sent: int)
    requires Eligible(e, SentLabel) && e.email != [] && e.date != []
    requires parseIso(e.date) == Some(sent)
    ensures var box := Mailbox(true, map[e.email := Found([Fetched([Some(sent + 1)]), Fetched([Some(sent + 2)])])]);
      Replies([e], box, parseIso, SentLabel) == [e.uuid, e.uuid]
  {
    var box := Mailbox(true, map[e.email := Found([Fetched([Some(sent + 1)]), Fetched([Some(sent + 2)])])]);
    var newest := Reversed(box.bySender[e.email].messages);
    assert HasReply(newest[0].dates, sent) by { assert IsReply(newest[0].dates[0], sent); }
    assert HasReply(newest[1].dates, sent) by { assert IsReply(newest[1].dates[0], sent); }
    assert newest[1..][1..] == [];
    assert Scan(newest[1..], sent, e.uuid) == [e.uuid];
    assert Scan(newest, sent, e.uuid) == [e.uuid, e.uuid];
    assert EntryReplies(e, box, parseIso, SentLabel) == [e.uuid, e.uuid];
    assert [e][..0] == [];
    assert RepliesOpen([e], box, parseIso, SentLabel) == EntryReplies(e, box, parseIso, SentLabel);
  }

  /** The scan the comments describe: stop at the first qualifying message. */
  function ScanFirstReply(newestFirst: seq<Fetch>, sent: int, uuid: string): (r: seq<string>)
    ensures r == [] || r == [uuid]
    decreases |newestFirst|
  {
    if newestFirst == [] then []
    else match newestFirst[0]
      case FetchError => []
      case Fetched(dates) =>
        if HasReply(dates, sent) then [uuid] else ScanFirstReply(newestFirst[1..], sent, uuid)
  }

  /** The intended per-entry contribution: entries recorded as "Envoyé" are
      scanned, and each contributes its uuid at most once. */
  function EntryRepliesIntended(e: Entry, box: Mailbox, parseIso: string -> Option<int>): (r: seq<string>)
    ensures r == [] || r == [e.uuid]
  {
    if !Eligible(e, StatusSent) || e.email == [] || e.date == [] then []
    else match parseIso(e.date)
      case None => []
      case Some(sent) =>
        match SearchFrom(box, e.email)
        case Found(messages) => ScanFirstReply(Reversed(messages), sent, e.uuid)
        case NotOk => []
        case SearchError => []
  }

  /** The intended scan detects the same replies as the literal one: it finds
      something exactly when the literal one does. */
  lemma {:induction false} FirstReplyDetectsSame(newestFirst: seq<Fetch>, sent: int, uuid: string)
    ensures (ScanFirstReply(newestFirst, sent, uuid) == []) <==> (Scan(newestFirst, sent, uuid) == [])
    decreases |newestFirst|
  {
    if newestFirst != [] && newestFirst[0].Fetched? {
      FirstReplyDetectsSame(newestFirst[1..], sent, uuid);
    }
  }

  /** An entry the send flow recorded as "Envoyé", with a later message from
      its recipient, is reported exactly once by the intended scan. */
  lemma IntendedReportsSentEntryOnce(e: Entry, box: Mailbox, parseIso: string -> Option<int>, sent: int)
    requires e.status == StatusSent && e.replied != Some(true) && e.email != [] && e.date != []
    requires parseIso(e.date) == Some(sent)
    requires SearchFrom(box, e.email).Found?
    requires var messages := SearchFrom(box, e.email).messages;
      && messages != [] && messages[|messages| - 1].Fetched?
      && HasReply(messages[|messages| - 1].dates, sent)
    ensures EntryRepliesIntended(e, box, parseIso) == [e.uuid]
  {
    var messages := SearchFrom(box, e.email).messages;
    NewestLaterMessageIsReply(e, box, parseIso, StatusSent, sent);
    FirstReplyDetectsSame(Reversed(messages), sent, e.uuid);
  }
}
