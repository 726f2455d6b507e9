/** The tracking endpoint (`GET /track?id=...`): always answers with the
    same transparent pixel and no-cache headers and, when an id is given,
    sets that entry's `read` flag in the send log.
 */
module Tracking {
  import opened Storage
  import opened History

  datatype Response = Response(
    status: int,
    body: seq<bv8>,
    mimetype: string,
    headers: seq<(string, string)>)

  /** The headers added to every answer: no caching anywhere, any origin. */
  const PixelHeaders: seq<(string, string)> := [
    ("Cache-Control", "no-cache, no-store, must-revalidate"),
    ("Pragma", "no-cache"),
    ("Expires", "0"),
    ("Access-Control-Allow-Origin", "*")
  ]

  /** The answer to every request: status 200, the pixel bytes as `image/png`. */
  function PixelResponse(pixel: seq<bv8>): (r: Response)
    ensures r.status == 200 && r.body == pixel && r.mimetype == "image/png"
    ensures ("Cache-Control", "no-cache, no-store, must-revalidate") in r.headers
    ensures ("Pragma", "no-cache") in r.headers && ("Expires", "0") in r.headers
    ensures ("Access-Control-Allow-Origin", "*") in r.headers
  {
    Response(200, pixel, "image/png", PixelHeaders)
  }

  /** The uuid a request marks read: the `id` argument when it is present and
      not empty (Python's truthiness test). */
  function TrackedId(id: Option<string>): (r: Option<string>)
    ensures r.Some? <==> id.Some? && id.value != []
    ensures r.Some? ==> r == id
  {
    if id.Some? && id.value != [] then id else None
  }

  /** The log a request leaves when the update does not raise. */
  function AfterTrack(f: FileState<seq<Entry>>, id: Option<string>): (g: FileState<seq<Entry>>)
    ensures TrackedId(id).None? ==> g == f
    ensures g != f ==> TrackedId(id).Some? && Known(Snapshot(f), id.value) && g.Ok?
  {
    match TrackedId(id)
    case None => f
    case Some(uuid) => AfterUpdate(f, uuid, None, Some(true))
  }

  /** A second identical request changes nothing further. */
  lemma TrackTwiceIsTrackOnce(f: FileState<seq<Entry>>, id: Option<string>)
    ensures AfterTrack(AfterTrack(f, id), id) == AfterTrack(f, id)
  {
    if TrackedId(id).Some? {
      AfterUpdateIdempotent(f, id.value, None, Some(true));
    }
  }

  /** A request for a known id leaves that entry read, keeps every flag that
      was already true, and changes no uuid; a request for an unknown id, or
      with no id, leaves the log exactly as it was. */
  lemma TrackMarksRead(f: FileState<seq<Entry>>, id: Option<string>)
    ensures var g := AfterTrack(f, id);
      && |Snapshot(g)| == |Snapshot(f)|
      && (forall j :: 0 <= j < |Snapshot(f)| ==> Snapshot(g)[j].uuid == Snapshot(f)[j].uuid)
      && (forall j :: 0 <= j < |Snapshot(f)| && Snapshot(f)[j].read == Some(true) ==> Snapshot(g)[j].read == Some(true))
      && (forall j :: 0 <= j < |Snapshot(f)| && Snapshot(f)[j].replied == Some(true) ==> Snapshot(g)[j].replied == Some(true))
      && (TrackedId(id).None? || !Known(Snapshot(f), id.value) ==> g == f)
      && (TrackedId(id).Some? && Known(Snapshot(f), id.value) ==>
            Snapshot(g)[FirstMatch(Snapshot(f), id.value).value].read == Some(true))
  {
    if TrackedId(id).Some? {
      AfterUpdateMonotone(f, id.value, None, Some(true));
      AfterUpdateKeepsUuids(f, id.value, None, Some(true));
    }
  }

  /** Where `update_status` fails, if it does. A failure before the write
      (while reading the log) leaves the file alone. A failure inside
      `json.dump` comes after the `'w'` open has truncated the file, so the
      file is left cut short and no longer decodes. The exception is caught
      by the handler in both cases. */
  datatype UpdateFault = NoFault | FailsBeforeWrite | FailsDuringWrite

  /** The Flask application: the pixel computed once at start-up and the send
      log it updates. */
  class TrackingServer {
    const pixel: seq<bv8>
    const log: HistoryManager

    constructor (pixel: seq<bv8>, log: HistoryManager)
      ensures this.pixel == pixel && this.log == log
    {
      this.pixel := pixel;
      this.log := log;
    }

    /** `track`: with a non-empty id, call `update_status(id, read=True)`,
        which may fail as `fault` says; the exception is swallowed. The pixel
        answer is returned in every case. */
    method Track(id: Option<string>, fault: UpdateFault) returns (resp: Response)
      modifies log
      ensures resp == PixelResponse(pixel)
      ensures fault.NoFault? ==> log.file == AfterTrack(old(log.file), id)
      ensures fault.FailsBeforeWrite? ==> log.file == old(log.file)
      ensures fault.FailsDuringWrite? ==>
        log.file == (if TrackedId(id).Some? && Known(Snapshot(old(log.file)), id.value) then Corrupt else old(log.file))
    {
      if id.Some? && id.value != [] {
        match fault
        case NoFault =>
          var _ := log.UpdateStatus(id.value, None, Some(true));
        case FailsBeforeWrite =>
        case FailsDuringWrite =>
          var history := log.GetHistory();
          if FirstMatch(history, id.value).Some? {
            log.file := Corrupt;
          }
      }
      resp := Response(200, pixel, "image/png", []);
      resp := resp.(headers := resp.headers + [("Cache-Control", "no-cache, no-store, must-revalidate")]);
      resp := resp.(headers := resp.headers + [("Pragma", "no-cache")]);
      resp := resp.(headers := resp.headers + [("Expires", "0")]);
      resp := resp.(headers := resp.headers + [("Access-Control-Allow-Origin", "*")]);
    }
  }
}
