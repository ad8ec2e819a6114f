/**
  The process state and one tick of the polling loop. The two package-level
  variables the program changes after start-up, the table of last seen
  statuses and the first-run flag, are the fields of `Bot`. Fetching the
  response and posting to the webhook are outside the model: a tick receives
  what the fetch produced and reports which notices it attempts to post, in
  order, whether or not the post then succeeds.
 */
module Scheduler {
  import opened Payload
  import opened ChangeDetector
  import DetectorProperties

  /** What the HTTP GET produced: a transport or read error, or a body. */
  datatype Fetch = FetchFailed | Fetched(response: Response)

  /** One attempted webhook post: the embed's description and image URL. */
  datatype Notice = Notice(message: string, imageURL: string)

  /** The notice attempted once, on the first tick. */
  const StartupNotice: Notice := Notice("Your Bot is UP!", "https://example.com/default-image.png")

  /** What one tick did: the notices it attempted to post, in order (a failed
      post is only logged), and whether the
      detector panicked (which ends the process). */
  datatype TickReport = TickReport(sent: seq<Notice>, panicked: bool)

  /** The change notice a detection calls for, if any: only a successful call
      with a non-empty message attempts one. */
  function ChangeNotice(outcome: Outcome): (n: seq<Notice>)
    ensures |n| <= 1
    ensures |n| == 1 <==> outcome.Notify? && outcome.message != ""
    ensures |n| == 1 ==> n[0] == Notice(outcome.message, outcome.imageURL)
  {
    match outcome
    case Notify(message, imageURL) => if message != "" then [Notice(message, imageURL)] else []
    case _ => []
  }

  class Bot {
    /** Activity id to the last status reported for it. */
    var lastResponse: map<int, string>
    /** True until the first tick has tried to post the start-up notice. */
    var firstRun: bool

    /** The state right after the environment is loaded. */
    constructor ()
      ensures lastResponse == map[] && firstRun
    {
      lastResponse := map[];
      firstRun := true;
    }

    /** The change detector on one response, updating `lastResponse` in place. */
    method FormatNotification(response: Response) returns (outcome: Outcome)
      modifies this`lastResponse
      ensures Detection(outcome, lastResponse) == Detect(old(lastResponse), response)
    {
      match response {
        case Undecodable =>
          outcome := Failed(InvalidJson);
        case Decoded(NotList) =>
          outcome := Failed(UnexpectedDataFormat);
        case Decoded(List(activities)) =>
          ghost var start := Start(lastResponse);
          var message, imageURL := "", "";
          var i := 0;
          while i < |activities|
            invariant i <= |activities|
            invariant Walk(start, activities[..i]) == Scanning(message, imageURL, lastResponse)
          {
            var act := activities[i];
            DetectorProperties.WalkSnoc(start, activities[..i], act);
            assert activities[..i + 1] == activities[..i] + [act];
            if act.Record? {
              if !act.id.Has? || !act.status.Has? {
                DetectorProperties.WalkAppend(start, activities[..i + 1], activities[i + 1..]);
                assert activities[..i + 1] + activities[i + 1..] == activities;
                return Panic;
              }
              var id, status := act.id.value, act.status.value;
              if status != Processed && (id !in lastResponse || lastResponse[id] != status) {
                message := message + Block(act.name, act.partner, status);
                if !act.logo.Has? {
                  DetectorProperties.WalkAppend(start, activities[..i + 1], activities[i + 1..]);
                  assert activities[..i + 1] + activities[i + 1..] == activities;
                  return Panic;
                }
                imageURL := act.logo.value;
                lastResponse := lastResponse[id := status];
              }
            }
            i := i + 1;
          }
          assert activities[..i] == activities;
          outcome := Notify(message, imageURL);
      }
    }

    /** One tick: the start-up notice on the first tick only, then the fetch,
        the detector, and a change notice when the message is not empty. */
    method CheckForChanges(fetch: Fetch) returns (report: TickReport)
      modifies this
      ensures !firstRun
      ensures var startup := if old(firstRun) then [StartupNotice] else [];
              match fetch
              case FetchFailed =>
                lastResponse == old(lastResponse) && report == TickReport(startup, false)
              case Fetched(response) =>
                var d := Detect(old(lastResponse), response);
                && lastResponse == d.table
                && report == TickReport(startup + ChangeNotice(d.outcome), d.outcome.Panic?)
    {
      var sent: seq<Notice> := [];
      if firstRun {
        sent := sent + [StartupNotice];
        firstRun := false;
      }
      match fetch {
        case FetchFailed =>
          report := TickReport(sent, false);
        case Fetched(response) =>
          var outcome := FormatNotification(response);
          if outcome.Panic? {
            report := TickReport(sent, true);
          } else if outcome.Notify? && outcome.message != "" {
            report := TickReport(sent + [Notice(outcome.message, outcome.imageURL)], false);
          } else {
            report := TickReport(sent, false);
          }
      }
    }
  }
}
