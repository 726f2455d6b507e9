/** The desktop application's three flows over the managers: sending one
    tracked mail (`process_mail`), applying a reply scan to the send log
    (`check_replies`) and the rows of the history tab (`load_history_view`).
    Widgets, threads and the log pane are not modelled: the text fields are
    the `Form` record, the template file is an `Option`, and the clock, the
    uuid generator, the SMTP server and the IMAP server are parameters.
 */
module App {
  import opened Storage
  import opened Text
  import opened History
  import opened ReplyChecker
  import opened Mail

  /** The placeholder a template may hold for the per-recipient value. */
  const Placeholder: string := "{variable}"

  /** The closing tag the tracking pixel is inserted before. */
  const BodyClose: string := "</body>"

  /** The URL the pixel loads: the tracking server on port 5000 of the local
      address, with the message's uuid as the `id` argument. */
  function TrackingUrl(localIp: string, trackingId: string): string {
    "http://" + localIp + ":5000/track?id=" + trackingId
  }

  /** The invisible one-pixel image that loads the tracking URL. */
  function TrackingPixel(url: string): (tag: string)
    ensures OccursAt(tag, url, 10) && tag[..10] == "<img src=\""
    ensures tag[|tag| - 1] == '>'
  {
    "<img src=\"" + url + "\" width=\"1\" height=\"1\" style=\"display:none;\">"
  }

  /** Where the pixel goes: before every `</body>` when the page has one,
      at the very end otherwise. */
  function InsertPixel(content: string, pixel: string): (r: string)
    ensures !Contains(content, BodyClose) ==> r == content + pixel
    ensures Contains(content, BodyClose) ==> r == Join(Split(content, BodyClose), pixel + BodyClose)
  {
    ReplaceIsJoinOfSplit(content, BodyClose, pixel + BodyClose);
    if Contains(content, BodyClose) then ReplaceAll(content, BodyClose, pixel + BodyClose)
    else content + pixel
  }

  /** The pixel always ends up in the page. A page without `</body>` is kept
      whole with the pixel after it; in a page with one, every `</body>` is
      preceded by the pixel, the text up to the first one is kept, and the
      pixel sits right where that first `</body>` was. */
  lemma InsertPixelPlacesPixel(content: string, pixel: string)
    ensures Contains(InsertPixel(content, pixel), pixel)
    ensures !Contains(content, BodyClose) ==> InsertPixel(content, pixel) == content + pixel
    ensures Contains(content, BodyClose) ==>
      var head := Split(content, BodyClose)[0];
      && InsertPixel(content, pixel) == Join(Split(content, BodyClose), pixel + BodyClose)
      && InsertPixel(content, pixel)[..|head|] == head
      && OccursAt(InsertPixel(content, pixel), pixel + BodyClose, |head|)
  {
    var r := InsertPixel(content, pixel);
    if Contains(content, BodyClose) {
      PixelBeforeFirstClose(content, pixel);
    } else {
      assert OccursAt(r, pixel, |content|);
    }
  }

  /** The case of a page with `</body>`: the replacement is the join of the
      split with the pixel in front of each separator. */
  lemma PixelBeforeFirstClose(content: string, pixel: string)
    requires Contains(content, BodyClose)
    ensures var parts := Split(content, BodyClose);
      var r := ReplaceAll(content, BodyClose, pixel + BodyClose);
      && r == Join(parts, pixel + BodyClose)
      && r[..|parts[0]|] == parts[0]
      && OccursAt(r, pixel + BodyClose, |parts[0]|)
      && OccursAt(r, pixel, |parts[0]|)
  {
    var parts := Split(content, BodyClose);
    var sep := pixel + BodyClose;
    ReplaceIsJoinOfSplit(content, BodyClose, sep);
    SplitOfContained(content, BodyClose);
    JoinContainsSeparator(parts, sep);
    var r := Join(parts, sep);
    assert r == parts[0] + sep + Join(parts[1..], sep);
    assert r[|parts[0]|..|parts[0]| + |pixel|] == sep[..|pixel|] == pixel;
  }

  /** The text fields of the send tab, as typed. */
  datatype Form = Form(
    email: string,
    variable: string,
    subject: string,
    smtpServer: string,
    smtpPort: string,
    user: string,
    password: string)

  /** Why the send flow stops before sending: no recipient, no usable
      template, or an incomplete SMTP configuration. */
  datatype Abort = EmailRequired | TemplateMissing | SmtpNotConfigured

  /** Everything `send_email` is called with, and the value recorded in the log. */
  datatype Prepared = Prepared(
    server: string,
    port: string,
    user: string,
    password: string,
    recipient: string,
    subject: string,
    html: string,
    variable: string)

  datatype Preparation = Ready(prepared: Prepared) | Aborted(reason: Abort)

  /** The checks and the page `process_mail` builds before sending: each
      field stripped; the recipient checked first, then the template (a
      missing file and an empty one both stop the flow), then the four SMTP
      fields. The page is the template with every placeholder replaced by the
      variable, then the tracking pixel inserted. */
  function PrepareSend(form: Form, template: Option<string>, localIp: string, trackingId: string): (r: Preparation)
    ensures r == Aborted(EmailRequired) <==> Strip(form.email) == []
    ensures r == Aborted(TemplateMissing) <==>
      Strip(form.email) != [] && (template.None? || template.value == [])
    ensures r == Aborted(SmtpNotConfigured) <==>
      && Strip(form.email) != [] && template.Some? && template.value != []
      && (Strip(form.smtpServer) == [] || Strip(form.smtpPort) == [] || Strip(form.user) == [] || Strip(form.password) == [])
    ensures r.Ready? ==>
      && r.prepared.recipient == Strip(form.email) && r.prepared.recipient != []
      && r.prepared.variable == Strip(form.variable)
      && r.prepared.subject == Strip(form.subject)
      && r.prepared.server == Strip(form.smtpServer) && r.prepared.server != []
      && r.prepared.port == Strip(form.smtpPort) && r.prepared.port != []
      && r.prepared.user == Strip(form.user) && r.prepared.user != []
      && r.prepared.password == Strip(form.password) && r.prepared.password != []
      && r.prepared.html ==
           InsertPixel(ReplaceAll(template.value, Placeholder, Strip(form.variable)),
                       TrackingPixel(TrackingUrl(localIp, trackingId)))
  {
    var email := Strip(form.email);
    if email == [] then Aborted(EmailRequired)
    else if template.None? || template.value == [] then Aborted(TemplateMissing)
    else
      var variable := Strip(form.variable);
      var page := ReplaceAll(template.value, Placeholder, variable);
      var html := InsertPixel(page, TrackingPixel(TrackingUrl(localIp, trackingId)));
      var server := Strip(form.smtpServer);
      var port := Strip(form.smtpPort);
      var user := Strip(form.user);
      var password := Strip(form.password);
      if server == [] || port == [] || user == [] || password == [] then Aborted(SmtpNotConfigured)
      else Ready(Prepared(server, port, user, password, email, Strip(form.subject), html, variable))
  }

  /** The page sent carries the tracking pixel with the message's own uuid,
      and the template's text with the variable substituted: a template with
      neither a placeholder nor `</body>` is sent as it is, followed by the
      pixel. */
  lemma PreparedPageIsTracked(form: Form, template: Option<string>, localIp: string, trackingId: string)
    requires PrepareSend(form, template, localIp, trackingId).Ready?
    ensures var html := PrepareSend(form, template, localIp, trackingId).prepared.html;
      && Contains(html, TrackingPixel(TrackingUrl(localIp, trackingId)))
      && (!Contains(template.value, Placeholder) && !Contains(template.value, BodyClose) ==>
            html == template.value + TrackingPixel(TrackingUrl(localIp, trackingId)))
  {
    var pixel := TrackingPixel(TrackingUrl(localIp, trackingId));
    var page := ReplaceAll(template.value, Placeholder, Strip(form.variable));
    InsertPixelPlacesPixel(page, pixel);
    if !Contains(template.value, Placeholder) {
      FindIffContains(template.value, Placeholder);
      assert page == template.value;
    }
  }

  /** The file left after applying `update_status(uid, replied=True)` for each
      reported uuid in turn. */
  function ApplyReplied(f: FileState<seq<Entry>>, uids: seq<string>): (g: FileState<seq<Entry>>)
    ensures f.Ok? ==> g.Ok?
    decreases |uids|
  {
    if uids == [] then f
    else AfterUpdate(ApplyReplied(f, uids[..|uids| - 1]), uids[|uids| - 1], Some(true), None)
  }

  /** How many of those calls found their uuid in the log (returned true). */
  function CountKnown(f: FileState<seq<Entry>>, uids: seq<string>): (n: nat)
    ensures n <= |uids|
    decreases |uids|
  {
    if uids == [] then 0
    else
      var init := uids[..|uids| - 1];
      CountKnown(f, init) + (if Known(Snapshot(ApplyReplied(f, init)), uids[|uids| - 1]) then 1 else 0)
  }

  /** The updates and the count for one more reported uuid. */
  lemma ApplyOneMore(f: FileState<seq<Entry>>, uids: seq<string>, i: nat)
    requires i < |uids|
    ensures ApplyReplied(f, uids[..i + 1]) == AfterUpdate(ApplyReplied(f, uids[..i]), uids[i], Some(true), None)
    ensures CountKnown(f, uids[..i + 1]) ==
      CountKnown(f, uids[..i]) + (if Known(Snapshot(ApplyReplied(f, uids[..i])), uids[i]) then 1 else 0)
  {
    assert uids[..i + 1][..i] == uids[..i];
  }

  /** The updates keep the log's length and its uuids, place by place. */
  lemma {:induction false} ApplyRepliedKeepsUuids(f: FileState<seq<Entry>>, uids: seq<string>)
    ensures |Snapshot(ApplyReplied(f, uids))| == |Snapshot(f)|
    ensures forall j :: 0 <= j < |Snapshot(f)| ==> Snapshot(ApplyReplied(f, uids))[j].uuid == Snapshot(f)[j].uuid
    decreases |uids|
  {
    if uids != [] {
      var init := uids[..|uids| - 1];
      ApplyRepliedKeepsUuids(f, init);
      AfterUpdateKeepsUuids(ApplyReplied(f, init), uids[|uids| - 1], Some(true), None);
    }
  }

  /** A uuid the log knows stays known, and keeps its first place, through
      the updates. */
  lemma KnownThroughUpdates(f: FileState<seq<Entry>>, uids: seq<string>, uuid: string)
    requires Known(Snapshot(f), uuid)
    ensures Known(Snapshot(ApplyReplied(f, uids)), uuid)
    ensures FirstMatch(Snapshot(ApplyReplied(f, uids)), uuid) == FirstMatch(Snapshot(f), uuid)
  {
    var g := ApplyReplied(f, uids);
    ApplyRepliedKeepsUuids(f, uids);
    FirstMatchByUuids(Snapshot(g), Snapshot(f), uuid);
    var i := FirstMatch(Snapshot(f), uuid).value;
    assert Snapshot(g)[i].uuid == uuid;
  }

  /** When every reported uuid is in the log, every update finds its entry,
      so the count shown is the number of reports, duplicates included. */
  lemma {:induction false} AllKnownAllCounted(f: FileState<seq<Entry>>, uids: seq<string>)
    requires forall k :: 0 <= k < |uids| ==> Known(Snapshot(f), uids[k])
    ensures CountKnown(f, uids) == |uids|
    decreases |uids|
  {
    if uids != [] {
      var init := uids[..|uids| - 1];
      AllKnownAllCounted(f, init);
      KnownThroughUpdates(f, init, uids[|uids| - 1]);
    }
  }

  /** The count `check_replies` logs is the number of uuids the scan
      returned: each comes from an entry of the snapshot the scan was given. */
  lemma EveryReportIsCounted(f: FileState<seq<Entry>>, box: Mailbox, parseIso: string -> Option<int>)
    ensures var uids := Replies(Snapshot(f), box, parseIso, SentLabel);
      CountKnown(f, uids) == |uids|
  {
    var h := Snapshot(f);
    var uids := Replies(h, box, parseIso, SentLabel);
    RepliesComeFromEligibleEntries(h, box, parseIso, SentLabel);
    forall k | 0 <= k < |uids|
      ensures Known(h, uids[k])
    {
      assert uids[k] in uids;
    }
    AllKnownAllCounted(f, uids);
  }

  /** After the updates, no flag that was true has become false. */
  lemma {:induction false} ApplyRepliedKeepsFlags(f: FileState<seq<Entry>>, uids: seq<string>)
    ensures |Snapshot(ApplyReplied(f, uids))| == |Snapshot(f)|
    ensures forall j :: 0 <= j < |Snapshot(f)| && Snapshot(f)[j].read == Some(true) ==>
      Snapshot(ApplyReplied(f, uids))[j].read == Some(true)
    ensures forall j :: 0 <= j < |Snapshot(f)| && Snapshot(f)[j].replied == Some(true) ==>
      Snapshot(ApplyReplied(f, uids))[j].replied == Some(true)
    decreases |uids|
  {
    if uids != [] {
      var init := uids[..|uids| - 1];
      ApplyRepliedKeepsFlags(f, init);
      AfterUpdateMonotone(ApplyReplied(f, init), uids[|uids| - 1], Some(true), None);
    }
  }

  /** After the updates, the first entry of every reported uuid the log knew
      is marked replied. */
  lemma {:induction false} ApplyRepliedMarks(f: FileState<seq<Entry>>, uids: seq<string>, k: nat)
    requires k < |uids| && Known(Snapshot(f), uids[k])
    ensures |Snapshot(ApplyReplied(f, uids))| == |Snapshot(f)|
    ensures Snapshot(ApplyReplied(f, uids))[FirstMatch(Snapshot(f), uids[k]).value].replied == Some(true)
    decreases |uids|
  {
    var init := uids[..|uids| - 1];
    var last := uids[|uids| - 1];
    var g := ApplyReplied(f, init);
    var i := FirstMatch(Snapshot(f), uids[k]).value;
    ApplyRepliedKeepsUuids(f, uids);
    AfterUpdateMonotone(g, last, Some(true), None);
    if k < |init| {
      assert uids[k] == init[k];
      ApplyRepliedMarks(f, init, k);
      assert Snapshot(g)[i].replied == Some(true);
    } else {
      assert k == |uids| - 1;
      assert Known(Snapshot(f), last);
      KnownThroughUpdates(f, init, last);
      assert FirstMatch(Snapshot(g), last).value == i;
    }
  }

  /** One row of the history tab: the date cut at the first "T", the
      recipient, the status, and whether each flag is true. */
  datatype Row = Row(date: string, email: string, status: string, read: bool, replied: bool)

  /** `date.split("T")[0]`: the longest prefix of the date without a "T". */
  function DateShort(date: string): (d: string)
    ensures d <= date && 'T' !in d
    ensures |d| < |date| ==> date[|d|] == 'T'
  {
    var parts := Split(date, "T");
    SplitHeadIsPrefix(date, "T");
    SplitHeadIsFree(date, "T");
    ContainsChar(parts[0], 'T');
    SplitFirstPiece(date, "T");
    assert |parts| > 1 ==> date[|parts[0]|..|parts[0]| + 1] == "T";
    parts[0]
  }

  function ViewRow(e: Entry): Row {
    Row(DateShort(e.date), e.email, e.status, e.read == Some(true), e.replied == Some(true))
  }

  /** The rows of the history tab, newest entry first. */
  function HistoryView(h: seq<Entry>): (rows: seq<Row>)
    ensures |rows| == |h|
    ensures |h| > 0 ==> rows[0] == ViewRow(h[|h| - 1]) && rows[|h| - 1] == ViewRow(h[0])
  {
    seq(|h|, k requires 0 <= k < |h| => ViewRow(h[|h| - 1 - k]))
  }

  /** The rows shown so far grow by the row of the next older entry. */
  lemma HistoryViewGrows(h: seq<Entry>, k: nat)
    requires k < |h|
    ensures HistoryView(h)[..k + 1] == HistoryView(h)[..k] + [ViewRow(h[|h| - 1 - k])]
  {
    var v := HistoryView(h);
    assert v[k] == ViewRow(h[|h| - 1 - k]);
    assert v[..k + 1] == v[..k] + [v[k]];
  }

  /** The entry at place `i` is shown on row `|h| - 1 - i`, with its flags. */
  lemma RowOfEntry(h: seq<Entry>, i: nat)
    requires i < |h|
    ensures |HistoryView(h)| == |h| && HistoryView(h)[|h| - 1 - i] == ViewRow(h[i])
    ensures HistoryView(h)[|h| - 1 - i].replied <==> h[i].replied == Some(true)
    ensures HistoryView(h)[|h| - 1 - i].read <==> h[i].read == Some(true)
  {
    var row := |h| - 1 - i;
    assert |h| - 1 - row == i;
  }

  /** An entry appended to the log becomes the top row, above the rows shown before. */
  lemma HistoryViewAppend(h: seq<Entry>, e: Entry)
    ensures HistoryView(h + [e]) == [ViewRow(e)] + HistoryView(h)
  {
    var v := HistoryView(h + [e]);
    assert v[0] == ViewRow(e);
    assert forall k :: 0 <= k < |h| ==> v[k + 1] == HistoryView(h)[k];
  }

  /** The snapshot of a log with one more entry is the old snapshot plus
      that entry, normalised. */
  lemma SnapshotAppend(f: FileState<seq<Entry>>, e: Entry)
    ensures Snapshot(Ok(Stored(f) + [e])) == Snapshot(f) + [Normalize(e)]
  {
    var h := Stored(f);
    assert Snapshot(f) == NormalizeAll(h);
    assert forall k :: 0 <= k < |h| ==> (h + [e])[k] == h[k];
  }

  /** A mail just recorded by `add_entry` is the top row, unread and
      unanswered, and the rows below it are the rows shown before. */
  lemma NewEntryShownFirst(f: FileState<seq<Entry>>, now: string, email: string, variable: string, uuid: string, status: string)
    ensures var rows := HistoryView(Snapshot(Ok(Stored(f) + [NewEntry(now, email, variable, uuid, status)])));
      && |rows| == |Snapshot(f)| + 1
      && rows[0] == Row(DateShort(now), email, status, false, false)
      && rows[1..] == HistoryView(Snapshot(f))
  {
    var e := NewEntry(now, email, variable, uuid, status);
    SnapshotAppend(f, e);
    assert Normalize(e) == e;
    HistoryViewAppend(Snapshot(f), e);
  }

  /** After the reply check, the history tab shows a reply on the row of
      the first entry of every reported uuid the log held. */
  lemma RepliedShownAfterCheck(f: FileState<seq<Entry>>, uids: seq<string>, k: nat)
    requires k < |uids| && Known(Snapshot(f), uids[k])
    ensures var g := Snapshot(ApplyReplied(f, uids));
      var i := FirstMatch(Snapshot(f), uids[k]).value;
      && |g| == |Snapshot(f)|
      && HistoryView(g)[|g| - 1 - i].replied
  {
    var g := Snapshot(ApplyReplied(f, uids));
    var i := FirstMatch(Snapshot(f), uids[k]).value;
    ApplyRepliedMarks(f, uids, k);
    assert g[i].replied == Some(true);
    RowOfEntry(g, i);
    assert |g| == |Snapshot(f)| && HistoryView(g)[|g| - 1 - i].replied;
  }

  /** The application: the send log it writes and the address the tracking
      URLs point at. */
  class Application {
    const history: HistoryManager
    const localIp: string

    constructor (history: HistoryManager, localIp: string)
      ensures this.history == history && this.localIp == localIp
    {
      this.history := history;
      this.localIp := localIp;
    }

    /** `process_mail`: stop with nothing written when a check fails;
        otherwise send once and record exactly one entry, "Envoyé" when the
        send succeeded and "Échec" when it did not. `trackingId` stands for
        the fresh uuid4 and `now` for the clock. */
    method ProcessMail(form: Form, template: Option<string>, trackingId: string, now: string,
                       transport: (string, int, Security, string, string, Message) -> SmtpOutcome)
      returns (outcome: Option<(bool, string)>)
      modifies history
      ensures PrepareSend(form, template, localIp, trackingId).Aborted? ==>
        outcome.None? && history.file == old(history.file)
      ensures PrepareSend(form, template, localIp, trackingId).Ready? ==>
        var p := PrepareSend(form, template, localIp, trackingId).prepared;
        var sent := SendEmail(p.server, p.port, p.user, p.password, p.recipient, p.subject, p.html, transport);
        && outcome == Some(sent)
        && history.file == Ok(Stored(old(history.file)) +
             [NewEntry(now, p.recipient, p.variable, trackingId, if sent.0 then StatusSent else StatusFailed)])
    {
      var preparation := PrepareSend(form, template, localIp, trackingId);
      if preparation.Aborted? {
        return None;
      }
      var p := preparation.prepared;
      var sent := SendEmail(p.server, p.port, p.user, p.password, p.recipient, p.subject, p.html, transport);
      var status := if sent.0 then StatusSent else StatusFailed;
      history.AddEntry(p.recipient, p.variable, trackingId, status, now);
      outcome := Some(sent);
    }

    /** `check_replies`: stop when a raw IMAP field is empty; otherwise scan
        the current log and call `update_status(uid, replied=True)` for each
        reported uuid, counting the calls that found their entry. The count
        equals the number of reports (`EveryReportIsCounted`). */
    method CheckRepliesFlow(host: string, user: string, password: string, box: Mailbox, parseIso: string -> Option<int>)
      returns (count: Option<nat>)
      modifies history
      ensures host == [] || user == [] || password == [] ==>
        count.None? && history.file == old(history.file)
      ensures host != [] && user != [] && password != [] ==>
        var uids := Replies(Snapshot(old(history.file)), box, parseIso, SentLabel);
        && count == Some(CountKnown(old(history.file), uids))
        && history.file == ApplyReplied(old(history.file), uids)
    {
      if host == [] || user == [] || password == [] {
        return None;
      }
      ghost var start := history.file;
      var entries := history.GetHistory();
      var uids := CheckReplies(entries, box, parseIso);
      var n := 0;
      for i := 0 to |uids|
        invariant history.file == ApplyReplied(start, uids[..i])
        invariant n == CountKnown(start, uids[..i])
      {
        ApplyOneMore(start, uids, i);
        var updated := history.UpdateStatus(uids[i], Some(true), None);
        if updated {
          n := n + 1;
        }
      }
      assert uids[..|uids|] == uids;
      count := Some(n);
    }

    /** `load_history_view`: the rows of the current log, newest first. */
    method LoadHistoryView() returns (rows: seq<Row>)
      ensures rows == HistoryView(Snapshot(history.file))
    {
      var h := history.GetHistory();
      rows := [];
      for k := 0 to |h|
        invariant rows == HistoryView(h)[..k]
      {
        HistoryViewGrows(h, k);
        rows := rows + [ViewRow(h[|h| - 1 - k])];
      }
      assert HistoryView(h)[..|h|] == HistoryView(h);
    }
  }
}
