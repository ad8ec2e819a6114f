/**
  What the change detector promises, proved about `Walk` and `Detect`:
  which elements leave no trace, what a changed record adds, what a panic
  keeps, which table entries can change, that the outcome agrees with the
  table-free description (`Report`, `LastImage`, `Known`), when the message
  is empty, and that a second call on the same input is silent.
 */
module DetectorProperties {
  import opened Payload
  import opened ChangeDetector

  // ---------------------------------------------------------------------
  // Walking a concatenation

  lemma {:induction false} WalkAppend(s: Scan, xs: seq<Element>, ys: seq<Element>)
    ensures Walk(s, xs + ys) == Walk(Walk(s, xs), ys)
    decreases |ys|
  {
    if ys == [] {
      assert xs + ys == xs;
    } else {
      var init := ys[..|ys| - 1];
      assert (xs + ys)[..|xs + ys| - 1] == xs + init;
      WalkAppend(s, xs, init);
    }
  }

  lemma WalkSnoc(s: Scan, xs: seq<Element>, e: Element)
    ensures Walk(s, xs + [e]) == Visit(Walk(s, xs), e)
  {
    assert (xs + [e])[..|xs|] == xs;
  }

  /** An element whose visit changes nothing can be dropped from the input,
      wherever it stands, without changing the outcome. */
  lemma SkippedRemovable(s: Scan, xs: seq<Element>, e: Element, ys: seq<Element>)
    requires Visit(Walk(s, xs), e) == Walk(s, xs)
    ensures Walk(s, xs + [e] + ys) == Walk(s, xs + ys)
  {
    WalkAppend(s, xs + [e], ys);
    WalkAppend(s, xs, ys);
    WalkSnoc(s, xs, e);
  }

  // ---------------------------------------------------------------------
  // The per-record rules

  /** Elements of `data` that are not objects are skipped. */
  lemma NonObjectSkipped(s: Scan, xs: seq<Element>, ys: seq<Element>)
    ensures Walk(s, xs + [NonObject] + ys) == Walk(s, xs + ys)
  {
    SkippedRemovable(s, xs, NonObject, ys);
  }

  /** A well-typed PROCESSED record adds nothing to the message, leaves the
      image and leaves the table alone, even when the table holds another
      status for its id. */
  lemma ProcessedSkipped(s: Scan, xs: seq<Element>, id: int, name: string, partner: string,
                         logo: Field<string>, ys: seq<Element>)
    ensures Walk(s, xs + [Record(Has(id), Has(Processed), name, partner, logo)] + ys) == Walk(s, xs + ys)
  {
    SkippedRemovable(s, xs, Record(Has(id), Has(Processed), name, partner, logo), ys);
  }

  /** A tracked record whose id already maps to its status adds nothing and
      leaves the table alone. */
  lemma UnchangedSkipped(s: Scan, xs: seq<Element>, e: Element, ys: seq<Element>)
    requires Walk(s, xs).Scanning? && Tracked(e)
    requires Lookup(Walk(s, xs).table, e.id.value) == Some(e.status.value)
    ensures Walk(s, xs + [e] + ys) == Walk(s, xs + ys)
  {
    SkippedRemovable(s, xs, e, ys);
  }

  /** A tracked record whose id is absent or maps to another status appends
      its block, makes its logo the image and records its status. */
  lemma ChangedAppendsBlock(s: Scan, xs: seq<Element>, e: Element)
    requires Walk(s, xs).Scanning? && Tracked(e) && e.logo.Has?
    requires Differs(Walk(s, xs).table, e.id.value, e.status.value)
    ensures var w := Walk(s, xs);
            Walk(s, xs + [e]) ==
              Scanning(w.message + Block(e.name, e.partner, e.status.value), e.logo.value,
                       w.table[e.id.value := e.status.value])
  {
    WalkSnoc(s, xs, e);
  }

  /** A record whose `id` or `status` fails its type assertion, or a changed
      record whose `mitra_logo` is not a string, panics: nothing after it is
      looked at, and the table keeps the updates made before it. */
  lemma MistypedRecordPanics(s: Scan, xs: seq<Element>, e: Element, ys: seq<Element>)
    requires Walk(s, xs).Scanning? && e.Record?
    requires || !e.id.Has? || !e.status.Has?
             || (Tracked(e) && Differs(Walk(s, xs).table, e.id.value, e.status.value) && !e.logo.Has?)
    ensures Walk(s, xs + [e] + ys) == Crashed(Walk(s, xs).table)
  {
    WalkSnoc(s, xs, e);
    WalkAppend(s, xs + [e], ys);
  }

  // ---------------------------------------------------------------------
  // Which table entries can change

  /** An id that no tracked record of `xs` carries keeps its entry (present or
      absent), whether the walk ends normally or panics. */
  lemma {:induction false} WalkFrame(s: Scan, xs: seq<Element>, k: int)
    requires LastStatus(xs, k) == None
    ensures Lookup(Walk(s, xs).table, k) == Lookup(s.table, k)
    decreases |xs|
  {
    if xs != [] {
      WalkFrame(s, xs[..|xs| - 1], k);
    }
  }

  lemma LastStatusSnoc(xs: seq<Element>, e: Element, k: int)
    ensures LastStatus(xs + [e], k) ==
            if Tracked(e) && e.id.value == k then Some(e.status.value) else LastStatus(xs, k)
  {
    assert (xs + [e])[..|xs|] == xs;
  }

  // ---------------------------------------------------------------------
  // The loop agrees with the table-free description

  /** The table-free description after `init` and one more element `e`. */
  lemma DescriptionSnoc(t0: map<int, string>, init: seq<Element>, e: Element)
    ensures Report(t0, init + [e]) ==
            Report(t0, init) + (if Fresh(t0, init, e) then Block(e.name, e.partner, e.status.value) else "")
    ensures LastImage(t0, init + [e]) ==
            if Fresh(t0, init, e) then (if e.logo.Has? then e.logo.value else "") else LastImage(t0, init)
    ensures forall k :: Known(t0, init + [e], k) ==
                        (if Tracked(e) && e.id.value == k then Some(e.status.value) else Known(t0, init, k))
  {
    var xs := init + [e];
    assert xs[..|xs| - 1] == init && xs[|xs| - 1] == e;
    forall k ensures Known(t0, xs, k) ==
                     if Tracked(e) && e.id.value == k then Some(e.status.value) else Known(t0, init, k)
    {
      LastStatusSnoc(init, e, k);
    }
  }

  /** Loop state `w` agrees with the description of `xs` from `t0`. */
  ghost predicate Describes(w: Scan, t0: map<int, string>, xs: seq<Element>)
  {
    && w.Scanning?
    && w.message == Report(t0, xs)
    && w.imageURL == LastImage(t0, xs)
    && forall k :: Lookup(w.table, k) == Known(t0, xs, k)
  }

  /** A visit that reports a change keeps loop state and description in
      agreement. */
  lemma FreshVisitDescribes(w: Scan, t0: map<int, string>, init: seq<Element>, e: Element)
    requires Describes(w, t0, init)
    requires Visit(w, e).Scanning? && Fresh(t0, init, e)
    ensures Describes(Visit(w, e), t0, init + [e])
  {
    var id, status := e.id.value, e.status.value;
    assert Lookup(w.table, id) == Known(t0, init, id);
    assert e.logo.Has?;
    var v := Visit(w, e);
    assert v == Scanning(w.message + Block(e.name, e.partner, status), e.logo.value, w.table[id := status]);
    DescriptionSnoc(t0, init, e);
    forall k ensures Lookup(v.table, k) == Known(t0, init + [e], k) {
      assert Lookup(w.table, k) == Known(t0, init, k);
    }
  }

  /** A visit that reports nothing changes neither the loop state nor the
      description. */
  lemma QuietVisitDescribes(w: Scan, t0: map<int, string>, init: seq<Element>, e: Element)
    requires Describes(w, t0, init)
    requires Visit(w, e).Scanning? && !Fresh(t0, init, e)
    ensures Describes(Visit(w, e), t0, init + [e])
  {
    if Tracked(e) {
      assert Lookup(w.table, e.id.value) == Known(t0, init, e.id.value);
    }
    assert Visit(w, e) == w;
    DescriptionSnoc(t0, init, e);
    forall k ensures Known(t0, init + [e], k) == Known(t0, init, k) {
      if Tracked(e) && e.id.value == k {
        assert Known(t0, init, k) == Some(e.status.value);
      }
    }
  }

  /** When a call does not panic, its message is the blocks of the fresh
      records in order, its image is the logo of the last of them, and each
      id is remembered with the status of its last tracked record (or keeps
      its old entry when there is none). */
  lemma {:induction false} WalkMatchesReport(t0: map<int, string>, xs: seq<Element>)
    requires Walk(Start(t0), xs).Scanning?
    ensures Walk(Start(t0), xs).message == Report(t0, xs)
    ensures Walk(Start(t0), xs).imageURL == LastImage(t0, xs)
    ensures forall k :: Lookup(Walk(Start(t0), xs).table, k) == Known(t0, xs, k)
    decreases |xs|
  {
    if xs != [] {
      var init, e := xs[..|xs| - 1], xs[|xs| - 1];
      assert xs == init + [e];
      WalkSnoc(Start(t0), init, e);
      WalkMatchesReport(t0, init);
      var w := Walk(Start(t0), init);
      if Fresh(t0, init, e) {
        FreshVisitDescribes(w, t0, init, e);
      } else {
        QuietVisitDescribes(w, t0, init, e);
      }
    }
  }

  /** With every tracked record already remembered, the table is what each id
      was known by from the start. */
  lemma {:induction false} KnownWhenAllKnown(t0: map<int, string>, xs: seq<Element>, k: int)
    requires AllKnown(t0, xs)
    ensures Known(t0, xs, k) == Lookup(t0, k)
    decreases |xs|
  {
    if xs != [] {
      var init := xs[..|xs| - 1];
      assert AllKnown(t0, init) by {
        forall j | 0 <= j < |init| ensures Tracked(init[j]) ==> Lookup(t0, init[j].id.value) == Some(init[j].status.value) {
          assert init[j] == xs[j];
        }
      }
      KnownWhenAllKnown(t0, init, k);
    }
  }

  /** The report is empty exactly when every tracked record already had its
      status remembered before the call; then the image is empty too. */
  lemma {:induction false} ReportEmptyIff(t0: map<int, string>, xs: seq<Element>)
    ensures Report(t0, xs) == "" <==> AllKnown(t0, xs)
    ensures Report(t0, xs) == "" ==> LastImage(t0, xs) == ""
    decreases |xs|
  {
    if xs != [] {
      var init, e := xs[..|xs| - 1], xs[|xs| - 1];
      ReportEmptyIff(t0, init);
      var tail := if Fresh(t0, init, e) then Block(e.name, e.partner, e.status.value) else "";
      assert Report(t0, xs) == Report(t0, init) + tail;
      assert Report(t0, xs) == "" <==> Report(t0, init) == "" && tail == "" by {
        if Report(t0, xs) == "" {
          assert |Report(t0, init)| + |tail| == 0;
        }
      }
      if AllKnown(t0, xs) {
        assert AllKnown(t0, init) by {
          forall j | 0 <= j < |init| ensures Tracked(init[j]) ==> Lookup(t0, init[j].id.value) == Some(init[j].status.value) {
            assert init[j] == xs[j];
          }
        }
        if Tracked(e) {
          KnownWhenAllKnown(t0, init, e.id.value);
          assert xs[|xs| - 1] == e;
        }
      }
      if Report(t0, xs) == "" {
        assert AllKnown(t0, init) && !Fresh(t0, init, e);
        forall j | 0 <= j < |xs| ensures Tracked(xs[j]) ==> Lookup(t0, xs[j].id.value) == Some(xs[j].status.value) {
          if j < |init| {
            assert xs[j] == init[j];
          } else if Tracked(e) {
            KnownWhenAllKnown(t0, init, e.id.value);
          }
        }
      }
    }
  }

  // ---------------------------------------------------------------------
  // A second call on the same input

  /** A walk that does not panic met only well-typed records. */
  lemma {:induction false} ScanningWellTyped(s: Scan, xs: seq<Element>)
    requires Walk(s, xs).Scanning?
    ensures forall j | 0 <= j < |xs| :: WellTyped(xs[j])
    decreases |xs|
  {
    if xs != [] {
      var init := xs[..|xs| - 1];
      ScanningWellTyped(s, init);
      forall j | 0 <= j < |init| ensures WellTyped(xs[j]) {
        assert xs[j] == init[j];
      }
    }
  }

  /** Well-typed records that all match the table change nothing. */
  lemma {:induction false} QuietWhenAllKnown(message: string, imageURL: string, t: map<int, string>, xs: seq<Element>)
    requires forall j | 0 <= j < |xs| :: WellTyped(xs[j])
    requires AllKnown(t, xs)
    ensures Walk(Scanning(message, imageURL, t), xs) == Scanning(message, imageURL, t)
    decreases |xs|
  {
    if xs != [] {
      var init, e := xs[..|xs| - 1], xs[|xs| - 1];
      assert AllKnown(t, init) && forall j | 0 <= j < |init| :: WellTyped(init[j]) by {
        forall j | 0 <= j < |init| ensures init[j] == xs[j] { }
      }
      QuietWhenAllKnown(message, imageURL, t, init);
      assert WellTyped(xs[|xs| - 1]);
    }
  }

  /** The last tracked status of an id is the status of one of its records. */
  lemma {:induction false} LastStatusOf(xs: seq<Element>, j: int)
    requires 0 <= j < |xs| && Tracked(xs[j])
    ensures exists i | 0 <= i < |xs| :: Tracked(xs[i]) && xs[i].id == xs[j].id
                                        && LastStatus(xs, xs[j].id.value) == Some(xs[i].status.value)
    decreases |xs|
  {
    var init, e := xs[..|xs| - 1], xs[|xs| - 1];
    var k := xs[j].id.value;
    if Tracked(e) && e.id.value == k {
      assert Tracked(xs[|xs| - 1]);
    } else {
      LastStatusOf(init, j);
      var i :| 0 <= i < |init| && Tracked(init[i]) && init[i].id == init[j].id
               && LastStatus(init, k) == Some(init[i].status.value);
      assert xs[i] == init[i];
    }
  }

  /** With no id carrying two different tracked statuses, a second walk over
      the same records, from the table the first one left, is silent and
      changes nothing. */
  lemma SecondWalkQuiet(t0: map<int, string>, xs: seq<Element>)
    requires Walk(Start(t0), xs).Scanning?
    requires Consistent(xs)
    ensures var t1 := Walk(Start(t0), xs).table;
            Walk(Start(t1), xs) == Start(t1)
  {
    var t1 := Walk(Start(t0), xs).table;
    WalkMatchesReport(t0, xs);
    ScanningWellTyped(Start(t0), xs);
    forall j | 0 <= j < |xs| && Tracked(xs[j])
      ensures Lookup(t1, xs[j].id.value) == Some(xs[j].status.value)
    {
      LastStatusOf(xs, j);
    }
    QuietWhenAllKnown("", "", t1, xs);
  }

  // ---------------------------------------------------------------------
  // Whole calls

  /** A call that is not a format error either panics or returns the report
      of its fresh records; its table is the table-free one in that case, and
      in every case the table only gains keys and changes no id that no
      tracked record carries. */
  lemma DetectOutcome(table: map<int, string>, response: Response)
    ensures var d := Detect(table, response);
            && table.Keys <= d.table.Keys
            && (forall k :: (!response.Decoded? || !response.data.List? || LastStatus(response.data.elements, k) == None)
                            ==> Lookup(d.table, k) == Lookup(table, k))
            && (d.outcome.Notify? ==>
                  var xs := response.data.elements;
                  && d.outcome.message == Report(table, xs)
                  && d.outcome.imageURL == LastImage(table, xs)
                  && (forall k :: Lookup(d.table, k) == Known(table, xs, k))
                  && (d.outcome.message == "" <==> AllKnown(table, xs))
                  && (d.outcome.message == "" ==> d.outcome.imageURL == ""))
  {
    if response.Decoded? && response.data.List? {
      var xs := response.data.elements;
      forall k | LastStatus(xs, k) == None ensures Lookup(Detect(table, response).table, k) == Lookup(table, k) {
        WalkFrame(Start(table), xs, k);
      }
      if Walk(Start(table), xs).Scanning? {
        WalkMatchesReport(table, xs);
        ReportEmptyIff(table, xs);
      }
    }
  }

  /** Idempotence: a call that did not panic, repeated on the same response
      with the table it left, returns an empty message and image and changes
      nothing, provided no id carries two different tracked statuses. */
  lemma DetectTwiceQuiet(table: map<int, string>, response: Response)
    requires Detect(table, response).outcome.Notify?
    requires Consistent(response.data.elements)
    ensures var t1 := Detect(table, response).table;
            Detect(t1, response) == Detection(Notify("", ""), t1)
  {
    SecondWalkQuiet(table, response.data.elements);
  }

  /** Without that proviso the second call is not silent: one id listed as
      ACTIVE and then as DONE flips the remembered status on every call. */
  lemma IdempotenceNeedsConsistentIds()
    ensures var xs := [Record(Has(1), Has("ACTIVE"), "A", "B", Has("a.png")),
                       Record(Has(1), Has("DONE"), "A", "B", Has("b.png"))];
            var d1 := Detect(map[], Decoded(List(xs)));
            var d2 := Detect(d1.table, Decoded(List(xs)));
            d1.outcome.Notify? && d1.table == map[1 := "DONE"] && d2.outcome.Notify? && d2.outcome.message != ""
  {
    var r1 := Record(Has(1), Has("ACTIVE"), "A", "B", Has("a.png"));
    var r2 := Record(Has(1), Has("DONE"), "A", "B", Has("b.png"));
    var xs := [r1, r2];
    WalkSnoc(Start(map[]), [r1], r2);
    WalkSnoc(Start(map[]), [], r1);
    WalkSnoc(Start(map[1 := "DONE"]), [r1], r2);
    WalkSnoc(Start(map[1 := "DONE"]), [], r1);
    assert [r1] + [r2] == xs && [] + [r1] == [r1];
  }

  /** Examples: a first poll with one ACTIVE record reports it with its logo; the same poll again is silent;
      a lone PROCESSED record reports nothing and is not remembered. */
  lemma FirstPollThenSilence()
    ensures var r := Record(Has(1), Has("ACTIVE"), "A", "B", Has("http://x/img.png"));
            var d1 := Detect(map[], Decoded(List([r])));
            && d1 == Detection(Notify(Block("A", "B", "ACTIVE"), "http://x/img.png"),
                               map[1 := "ACTIVE"])
            && Detect(d1.table, Decoded(List([r]))) == Detection(Notify("", ""), map[1 := "ACTIVE"])
    ensures var p := Record(Has(1), Has(Processed), "A", "B", Has("http://x/img.png"));
            Detect(map[], Decoded(List([p]))) == Detection(Notify("", ""), map[])
  {
    var r := Record(Has(1), Has("ACTIVE"), "A", "B", Has("http://x/img.png"));
    var p := Record(Has(1), Has(Processed), "A", "B", Has("http://x/img.png"));
    var t1 := map[1 := "ACTIVE"];
    assert [] + [r] == [r] && [] + [p] == [p];
    assert "" + Block("A", "B", "ACTIVE") == Block("A", "B", "ACTIVE");
    WalkSnoc(Start(map[]), [], r);
    assert Walk(Start(map[]), [r]) == Visit(Start(map[]), r);
    WalkSnoc(Start(t1), [], r);
    assert Walk(Start(t1), [r]) == Visit(Start(t1), r) == Start(t1);
    WalkSnoc(Start(map[]), [], p);
    assert Walk(Start(map[]), [p]) == Visit(Start(map[]), p) == Start(map[]);
  }
}
