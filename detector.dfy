/**
  The change detector (`formatNotification`): it walks the `data` array in
  order and, for every tracked record whose status differs from the one
  remembered for its id, appends a three-line block to the message, takes the
  record's logo as the image and remembers the new status.

  `Visit` and `Walk` give the meaning of one loop iteration and of the loop;
  `Detect` gives the meaning of a whole call. `LastStatus`, `Known`, `Report`
  and `LastImage` describe the same outcome without the table that the loop
  threads through, and the lemmas in module DetectorProperties connect the two.
 */
module ChangeDetector {
  import opened Payload

  /** The block appended for one changed activity: its Activity, Partner
      and Status lines, in that order. */
  function Block(name: string, partner: string, status: string): (b: string)
    ensures |b| > 0 && b[|b| - 1] == '\n'
  {
    "**Activity:** " + name + "\n" + "**Partner:** " + partner + "\n" + "**Status:** " + status + "\n"
  }

  function Lookup(table: map<int, string>, k: int): Option<string>
  {
    if k in table then Some(table[k]) else None
  }

  /** Is the remembered status for `id` absent or different from `status`? */
  predicate Differs(table: map<int, string>, id: int, status: string)
  {
    Lookup(table, id) != Some(status)
  }

  /** The loop's state: the message and image built so far and the table, or a
      panic, after which only the table (as far as it was updated) survives. */
  datatype Scan =
    | Scanning(message: string, imageURL: string, table: map<int, string>)
    | Crashed(table: map<int, string>)

  /** One iteration of the loop on element `e`. */
  function Visit(s: Scan, e: Element): (r: Scan)
    ensures s.table.Keys <= r.table.Keys
    ensures s.Crashed? ==> r == s
    ensures r.Crashed? && s.Scanning? ==> r.table == s.table
  {
    match s
    case Crashed(_) => s
    case Scanning(message, imageURL, table) =>
      match e
      case NonObject => s
      case Record(id, status, name, partner, logo) =>
        if !id.Has? || !status.Has? then Crashed(table)
        else if status.value == Processed then s
        else if !Differs(table, id.value, status.value) then s
        else if !logo.Has? then Crashed(table)
        else Scanning(message + Block(name, partner, status.value), logo.value,
                      table[id.value := status.value])
  }

  /** The loop over `xs`, one `Visit` per element, left to right. */
  function Walk(s: Scan, xs: seq<Element>): (r: Scan)
    ensures s.table.Keys <= r.table.Keys
    ensures s.Crashed? ==> r == s
    decreases |xs|
  {
    if xs == [] then s else Visit(Walk(s, xs[..|xs| - 1]), xs[|xs| - 1])
  }

  datatype FormatError = InvalidJson | UnexpectedDataFormat

  /** What one call ends with: its two strings, its error, or a panic of one
      of its type assertions. */
  datatype Outcome =
    | Notify(message: string, imageURL: string)
    | Failed(error: FormatError)
    | Panic

  datatype Detection = Detection(outcome: Outcome, table: map<int, string>)

  /** The state in which the loop starts: both strings empty. */
  function Start(table: map<int, string>): Scan
  {
    Scanning("", "", table)
  }

  /** One call of the detector on a response, from the remembered `table`. */
  function Detect(table: map<int, string>, response: Response): (d: Detection)
    ensures table.Keys <= d.table.Keys
    ensures d.outcome.Failed? <==> !(response.Decoded? && response.data.List?)
    ensures d.outcome.Failed? ==> d.table == table
  {
    match response
    case Undecodable => Detection(Failed(InvalidJson), table)
    case Decoded(NotList) => Detection(Failed(UnexpectedDataFormat), table)
    case Decoded(List(xs)) =>
      match Walk(Start(table), xs)
      case Scanning(message, imageURL, t) => Detection(Notify(message, imageURL), t)
      case Crashed(t) => Detection(Panic, t)
  }

  // ---------------------------------------------------------------------
  // The same outcome described without the loop's evolving table.

  /** The status of the last tracked record with id `k` in `xs`, if any. */
  function LastStatus(xs: seq<Element>, k: int): Option<string>
    decreases |xs|
  {
    if xs == [] then None
    else
      var e := xs[|xs| - 1];
      if Tracked(e) && e.id.value == k then Some(e.status.value)
      else LastStatus(xs[..|xs| - 1], k)
  }

  /** The status remembered for `k` once `xs` has been seen, starting from `t0`. */
  function Known(t0: map<int, string>, xs: seq<Element>, k: int): Option<string>
  {
    match LastStatus(xs, k)
    case Some(status) => Some(status)
    case None => Lookup(t0, k)
  }

  /** Does `e`, coming right after `xs`, report a status change? */
  predicate Fresh(t0: map<int, string>, xs: seq<Element>, e: Element)
  {
    Tracked(e) && Known(t0, xs, e.id.value) != Some(e.status.value)
  }

  /** The blocks of all fresh records of `xs`, in order. */
  function Report(t0: map<int, string>, xs: seq<Element>): string
    decreases |xs|
  {
    if xs == [] then ""
    else
      var init, e := xs[..|xs| - 1], xs[|xs| - 1];
      Report(t0, init) + (if Fresh(t0, init, e) then Block(e.name, e.partner, e.status.value) else "")
  }

  /** The logo of the last fresh record of `xs`, or "" when there is none.
      (A fresh record without a string logo panics, so its "" is never seen.) */
  function LastImage(t0: map<int, string>, xs: seq<Element>): string
    decreases |xs|
  {
    if xs == [] then ""
    else
      var init, e := xs[..|xs| - 1], xs[|xs| - 1];
      if Fresh(t0, init, e) then (if e.logo.Has? then e.logo.value else "")
      else LastImage(t0, init)
  }

  /** Every tracked record of `xs` already has its status remembered in `t`. */
  ghost predicate AllKnown(t: map<int, string>, xs: seq<Element>)
  {
    forall j | 0 <= j < |xs| :: Tracked(xs[j]) ==> Lookup(t, xs[j].id.value) == Some(xs[j].status.value)
  }

  /** No id occurs in two tracked records of `xs` with different statuses. */
  ghost predicate Consistent(xs: seq<Element>)
  {
    forall i, j | 0 <= i < |xs| && 0 <= j < |xs| ::
      Tracked(xs[i]) && Tracked(xs[j]) && xs[i].id == xs[j].id ==> xs[i].status == xs[j].status
  }
}
