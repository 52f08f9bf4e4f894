/**
 * One chat turn of the memory pipeline, run against the session's state:
 * normalise the store, retrieve, classify and write, assemble the prompt,
 * compute the metrics, publish the panel and return the reply.
 */
module Pipeline {
  import opened Store
  import opened Retrieval
  import opened Classification
  import opened Prompt

  /** What the side panel shows: the defaults before any turn, then the latest turn's stages. */
  datatype Panel =
    | EmptyPanel
    | TurnPanel(retrieved: seq<Scored>, changeLog: seq<Change>, finalPrompt: string, metrics: Metrics)

  /**
   * The values a turn takes from the clock and the random source: one
   * score jitter per fact (hundredths), the measured retrieval time and
   * the added latency (tenths of a millisecond), and the reply's token count.
   */
  datatype Draws = Draws(jitter: seq<int>, elapsed: nat, latency: int, replyTokens: int)

  predicate ValidDraws(db: seq<Entry>, d: Draws) {
    && |d.jitter| == |db|
    && (forall k :: 0 <= k < |d.jitter| ==> ValidJitter(d.jitter[k]))
    && 200 <= d.latency <= 800
    && 40 <= d.replyTokens <= 120
  }

  /** The session state the turns share: the memory store and the panel. */
  class Session {
    var memoryDb: seq<Entry>
    var panel: Panel

    constructor (db: seq<Entry>)
      ensures memoryDb == db && panel == EmptyPanel
    {
      memoryDb := db;
      panel := EmptyPanel;
    }

    /** Decides the turn's write, applies it to the store and returns its log entry. */
    method Classify(input: string) returns (change: Change)
      requires AllRecords(memoryDb)
      modifies this
      ensures memoryDb == Written(old(memoryDb), input)
      ensures change == Logged(old(memoryDb), input)
      ensures panel == old(panel)
    {
      var isEdit := IsEdit(input);
      var isNew := IsNew(input);
      if isEdit && memoryDb != [] {
        var oldFact := memoryDb[|memoryDb| - 1].fact;
        var newFact := NewFact(input);
        memoryDb := memoryDb[|memoryDb| - 1 := Record(newFact)];
        change := Change(Update, UpdateContent(oldFact, newFact));
      } else if isNew {
        var newFact := NewFact(input);
        memoryDb := memoryDb + [Record(newFact)];
        change := Change(New, newFact);
      } else {
        change := Change(Noop, NoopMessage);
      }
    }

    /**
     * One turn. Retrieval sees the normalised store as it was before this
     * turn's write; the store then changes only by the write; the panel
     * holds exactly one change-log entry and the prompt built from the
     * retrieval result.
     */
    method Turn(input: string, draws: Draws) returns (reply: string)
      requires ValidDraws(memoryDb, draws)
      modifies this
      ensures var db := Normalised(old(memoryDb));
              var retrieved := Retrieved(Facts(db), input, draws.jitter);
              var prompt := BuildPrompt(retrieved, input);
              && memoryDb == Written(db, input)
              && panel == TurnPanel(retrieved, [Logged(db, input)], prompt,
                                    MakeMetrics(prompt, draws.elapsed, draws.latency, draws.replyTokens))
              && reply == Reply(retrieved, input)
    {
      NormaliseStore();
      ghost var db := memoryDb;
      var retrieved := Retrieve(Facts(memoryDb), input, draws.jitter);
      var change := Classify(input);
      var prompt := BuildPrompt(retrieved, input);
      var metrics := MakeMetrics(prompt, draws.elapsed, draws.latency, draws.replyTokens);
      panel := TurnPanel(retrieved, [change], prompt, metrics);
      reply := Reply(retrieved, input);
    }

    /** Rebuilds the store with every legacy entry wrapped as a record. */
    method NormaliseStore()
      modifies this
      ensures memoryDb == Normalised(old(memoryDb))
      ensures panel == old(panel)
    {
      memoryDb := Normalised(memoryDb);
    }
  }

  /**
   * What a turn leaves in the store: every entry a record, one entry more
   * at most, and every entry before the last carrying the text it had,
   * legacy or not.
   */
  lemma TurnKeepsEarlierFacts(db: seq<Entry>, input: string)
    ensures AllRecords(Written(Normalised(db), input))
    ensures |db| <= |Written(Normalised(db), input)| <= |db| + 1
    ensures forall k :: 0 <= k < |db| - 1 ==> Written(Normalised(db), input)[k].fact == EntryText(db[k])
  {
    var n := Normalised(db);
    var w := Written(n, input);
    assert forall k :: 0 <= k < |db| - 1 ==> w[k] == n[k];
  }

  /** A session started from a legacy store: the bare entry is wrapped, then corrected. */
  method LegacyCorrection()
  {
    var session := new Session([Bare("我叫小明")]);
    NormalisedSingle();
    var reply := session.Turn("其实我叫小华", Draws([0], 3, 200, 40));
    CorrectionUpdatesLastFact();
    assert session.memoryDb == [Record("其实我叫小华")];
  }

  lemma NormalisedSingle()
    ensures Normalised([Bare("我叫小明")]) == [Record("我叫小明")]
  {
  }
}
