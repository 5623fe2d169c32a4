/** The streaming firmware end to end: hops of audio in, keyword reports out. */
module KeywordFirmware {
  import opened FixedPoint
  import opened StreamSpec
  import StreamEngine
  import ScoreDetector

  function Heard(hops: seq<seq<int8>>): seq<int8> {
    if |hops| == 0 then [] else Heard(hops[..|hops| - 1]) + hops[|hops| - 1]
  }

  /** The complete 1600-sample stretches of a recording. */
  function Complete(audio: seq<int8>): seq<int8> {
    audio[..|audio| - |audio| % HOP]
  }

  /** Every row of scores is that of the network run once over the whole recording so far. */
  ghost predicate Scored(m: Model, hops: seq<seq<int8>>, rows: seq<Frame>) {
    |rows| == |hops| && forall k :: 0 <= k < |hops| ==> ScoredAt(m, hops[..k + 1], rows[k])
  }

  ghost predicate ScoredAt(m: Model, hops: seq<seq<int8>>, row: Frame) {
    Ready(m, Complete(Heard(hops))) && row == BatchScores(m, Complete(Heard(hops)))
  }

  class Firmware {
    const engine: StreamEngine.Engine
    const detector: ScoreDetector.Detector
    ghost var hops: seq<seq<int8>>   // the hops taken from the capture side

    ghost predicate Apart() {
      && detector.smoothScores != engine.audioRing && detector.smoothScores != engine.sampleBuf
      && detector.scoreHistory != engine.conv1Ctx && detector.scoreHistory != engine.conv2Ctx
      && detector.scoreHistory != engine.conv3Ctx && detector.scoreHistory != engine.conv4Ctx
      && detector.scoreHistory != engine.pool2Buf && detector.scoreHistory != engine.pool3Buf
      && detector.scoreHistory != engine.gapRing
    }

    /** The reports are those of the detector on the whole-recording scores. */
    ghost predicate Valid()
      reads this, engine, engine.audioRing, engine.conv1Ctx, engine.conv2Ctx, engine.conv3Ctx, engine.conv4Ctx
      reads engine.pool2Buf, engine.pool3Buf, engine.gapRing, engine.sampleBuf
      reads detector, detector.scoreHistory
    {
      && Apart() && engine.Valid() && detector.Valid()
      && engine.History() == Heard(hops) && Scored(engine.model, hops, detector.rows)
    }

    constructor (m: Model, window: nat, threshold: int, debounce: nat)
      requires m.Valid() && window > 0
      ensures Valid() && hops == [] && engine.model == m
    {
      engine := new StreamEngine.Engine(m);
      detector := new ScoreDetector.Detector(window, threshold, debounce);
      hops := [];
    }

    /** The engine's part: a hop of at least 1600 samples always produces scores. */
    method Score(safeHop: array<int8>, scores: array<int8>)
      requires engine.Valid() && safeHop.Length >= HOP && scores.Length == NUM_CLASSES && scores != safeHop
      requires safeHop != engine.audioRing && safeHop != engine.sampleBuf
      requires scores != engine.audioRing && scores != engine.sampleBuf
      modifies engine, engine.audioRing, engine.conv1Ctx, engine.conv2Ctx, engine.conv3Ctx, engine.conv4Ctx
      modifies engine.pool2Buf, engine.pool3Buf, engine.gapRing, engine.sampleBuf, scores
      ensures engine.Valid() && engine.History() == old(engine.History()) + safeHop[..]
      ensures Ready(engine.model, Complete(engine.History()))
      ensures scores[..] == BatchScores(engine.model, Complete(engine.History()))
    {
      hide Ready, BatchScores;
      Crosses(|engine.History()|, safeHop.Length);
      assert safeHop[..safeHop.Length] == safeHop[..];
      var produced := engine.KwsPush(safeHop, safeHop.Length, scores);
      Processed(engine);
    }

    /** The body of the main loop for one hop. */
    method ServeHop(safeHop: array<int8>) returns (verdict: ScoreDetector.Verdict)
      requires Valid() && safeHop.Length >= HOP && safeHop != engine.audioRing && safeHop != engine.sampleBuf
      requires safeHop != detector.smoothScores
      modifies this`hops, engine, engine.audioRing, engine.conv1Ctx, engine.conv2Ctx, engine.conv3Ctx, engine.conv4Ctx
      modifies engine.pool2Buf, engine.pool3Buf, engine.gapRing, engine.sampleBuf
      modifies detector, detector.scoreHistory, detector.smoothScores
      ensures Valid() && hops == old(hops) + [safeHop[..]]
      ensures detector.verdicts == old(detector.verdicts) + [verdict]
    {
      hide Ready, BatchScores, Heard, Scored, Complete, StreamEngine.Engine.Valid, ScoreDetector.Detector.Valid;
      var scores := new int8[NUM_CLASSES];
      Score(safeHop, scores);
      HeardNext(hops, safeHop[..]);
      ScoredNext(engine.model, hops, detector.rows, safeHop[..], scores[..]);
      verdict := detector.ProcessHop(scores[..]);
      hops := hops + [safeHop[..]];
    }
  }

  lemma Crosses(n: nat, k: nat)
    requires k >= HOP
    ensures (n + k) / HOP > n / HOP
  {
  }

  lemma Processed(engine: StreamEngine.Engine)
    requires engine.Valid()
    ensures engine.processed == Complete(engine.History())
  {
    engine.Tracked();
  }

  lemma HeardNext(hops: seq<seq<int8>>, hop: seq<int8>)
    ensures Heard(hops + [hop]) == Heard(hops) + hop
  {
    assert (hops + [hop])[..|hops|] == hops;
  }

  lemma ScoredNext(m: Model, hops: seq<seq<int8>>, rows: seq<Frame>, hop: seq<int8>, row: Frame)
    requires Scored(m, hops, rows) && ScoredAt(m, hops + [hop], row)
    ensures Scored(m, hops + [hop], rows + [row])
  {
    hide ScoredAt;
    var all := hops + [hop];
    forall k | 0 <= k < |all| ensures ScoredAt(m, all[..k + 1], (rows + [row])[k]) {
      if k < |hops| {
        assert all[..k + 1] == hops[..k + 1];
      } else {
        assert all[..k + 1] == all;
      }
    }
  }

  /** The reports are a function of the hops alone: they do not depend on anything left in
      the rings, contexts and partial groups. */
  lemma ReportsDetermined(f: Firmware, g: Firmware)
    requires f.Valid() && g.Valid() && f.hops == g.hops && f.engine.model == g.engine.model
    requires f.detector.window == g.detector.window && f.detector.threshold == g.detector.threshold
    requires f.detector.debounceHops == g.detector.debounceHops
    ensures f.detector.verdicts == g.detector.verdicts
  {
    forall k | 0 <= k < |f.hops| ensures f.detector.rows[k] == g.detector.rows[k] {
      assert ScoredAt(f.engine.model, f.hops[..k + 1], f.detector.rows[k]);
    }
    assert f.detector.rows == g.detector.rows;
  }

  /** Report k is made exactly if the smoothed scores of the whole recording up to hop k
      are confident and none of the last debounce hops reported. */
  lemma ReportExactly(f: Firmware, k: nat)
    requires f.Valid() && k < |f.hops|
    ensures var d := f.detector;
            && ScoredAt(f.engine.model, f.hops[..k + 1], d.rows[k])
            && (d.verdicts[k].Detect? <==>
                  ScoreDetector.SomeConfident(ScoreDetector.Smoothed(d.rows, d.window)[k], d.threshold)
                  && forall j :: 0 <= j < k && k - d.debounceHops <= j ==> !d.verdicts[j].Detect?)
            && (d.verdicts[k].Detect? ==>
                  ScoreDetector.Confident(ScoreDetector.Smoothed(d.rows, d.window)[k], d.verdicts[k].class_,
                                          d.threshold))
  {
    hide ScoredAt, ScoreDetector.Run, ScoreDetector.Smoothed, ScoreDetector.SomeConfident, ScoreDetector.Confident;
    ScoreDetector.FiresExactly(ScoreDetector.Smoothed(f.detector.rows, f.detector.window),
                               f.detector.threshold, f.detector.debounceHops, k);
  }
}
