/** The keyword detector behind the streaming engine: scores are averaged over the last
    hops in a ring, and a confident hop fires unless one fired shortly before. */
module ScoreDetector {
  import opened FixedPoint
  import opened StreamSpec
  import LayerMeaning
  import Ring

  /** Average of the last `window` rows, class by class. */
  function Smooth(rows: seq<Frame>, window: nat): (row: Frame)
    requires |rows| > 0 && window > 0 && Shaped(rows, NUM_CLASSES)
    ensures |row| == NUM_CLASSES
  {
    seq(NUM_CLASSES, c requires 0 <= c < NUM_CLASSES => AverageAt(Ring.Latest(rows, window), c))
  }

  /** The smoothed row of every hop. */
  function Smoothed(rows: seq<Frame>, window: nat): (s: seq<Frame>)
    requires window > 0 && Shaped(rows, NUM_CLASSES)
    ensures |s| == |rows| && Shaped(s, NUM_CLASSES)
  {
    if |rows| == 0 then [] else Smoothed(rows[..|rows| - 1], window) + [Smooth(rows, window)]
  }

  /** The first class among the first n with the highest score. */
  function Best(scores: seq<int8>, n: nat): (b: nat)
    requires 0 < n <= |scores|
    ensures b < n
    ensures forall c :: 0 <= c < n ==> scores[c] <= scores[b]
    ensures forall c :: 0 <= c < b ==> scores[c] < scores[b]
  {
    if n == 1 then 0
    else
      var b := Best(scores, n - 1);
      if scores[n - 1] > scores[b] then n - 1 else b
  }

  datatype Verdict = Silent | Detect(class_: nat, score: int8)

  /** The last class is "unknown". */
  function Judge(row: Frame, threshold: int): Verdict
    requires |row| == NUM_CLASSES
  {
    var b := Best(row, NUM_CLASSES);
    if b != NUM_CLASSES - 1 && row[b] > threshold then Detect(b, row[b]) else Silent
  }

  /** Hops still to be suppressed after the given verdicts. */
  function Countdown(verdicts: seq<Verdict>, debounce: nat): (n: nat)
    ensures n <= debounce
  {
    if |verdicts| == 0 then 0
    else if verdicts[|verdicts| - 1].Detect? then debounce
    else
      var before := Countdown(verdicts[..|verdicts| - 1], debounce);
      if before > 0 then before - 1 else 0
  }

  /** The verdicts over a sequence of smoothed rows. */
  function Run(rows: seq<Frame>, threshold: int, debounce: nat): (verdicts: seq<Verdict>)
    requires Shaped(rows, NUM_CLASSES)
    ensures |verdicts| == |rows|
  {
    if |rows| == 0 then []
    else
      var before := Run(rows[..|rows| - 1], threshold, debounce);
      before + [if Countdown(before, debounce) > 0 then Silent else Judge(rows[|rows| - 1], threshold)]
  }

  class Detector {
    const window: nat                // SMOOTH_WIN
    const threshold: int             // KWS_DETECT_THRESHOLD
    const debounceHops: nat          // KWS_DEBOUNCE_HOPS
    const scoreHistory: array<Frame>
    const smoothScores: array<int8>
    var scoreHistHead: nat
    var scoreHistCnt: nat
    var debounceCtr: nat

    ghost var rows: seq<Frame>       // the scores of every hop
    ghost var verdicts: seq<Verdict> // what was reported for every hop

    ghost predicate RingValid()
      reads this`rows, this`scoreHistHead, this`scoreHistCnt, scoreHistory
    {
      && window > 0 && scoreHistory.Length == window && smoothScores.Length == NUM_CLASSES
      && Shaped(rows, NUM_CLASSES) && Shaped(scoreHistory[..], NUM_CLASSES)
      && Ring.Holds(scoreHistory[..], rows)
      && scoreHistHead == |rows| % window && scoreHistCnt == |Ring.Latest(rows, window)|
    }

    ghost predicate Valid()
      reads this, scoreHistory
    {
      && RingValid()
      && verdicts == Run(Smoothed(rows, window), threshold, debounceHops)
      && debounceCtr == Countdown(verdicts, debounceHops)
    }

    constructor (window: nat, threshold: int, debounceHops: nat)
      requires window > 0
      ensures Valid() && rows == []
      ensures this.window == window && this.threshold == threshold && this.debounceHops == debounceHops
      ensures fresh(scoreHistory) && fresh(smoothScores)
    {
      this.window, this.threshold, this.debounceHops := window, threshold, debounceHops;
      scoreHistory := new Frame[window](_ => Zeros(NUM_CLASSES));
      smoothScores := new int8[NUM_CLASSES](_ => 0);
      scoreHistHead, scoreHistCnt, debounceCtr := 0, 0, 0;
      rows, verdicts := [], [];
    }

    /** Write the new row over the oldest one. */
    method Remember(scores: Frame)
      requires RingValid() && |scores| == NUM_CLASSES
      modifies this`rows, this`scoreHistHead, this`scoreHistCnt, scoreHistory
      ensures RingValid() && rows == old(rows) + [scores]
    {
      Ring.Push(scoreHistory[..], rows, scores);
      Ring.SumMod(|rows|, 1, window);
      hide Ring.Holds;
      scoreHistory[scoreHistHead] := scores;
      assert scoreHistory[..] == old(scoreHistory[..])[|rows| % window := scores];
      scoreHistHead := (scoreHistHead + 1) % window;
      if scoreHistCnt < window {
        scoreHistCnt := scoreHistCnt + 1;
      }
      rows := rows + [scores];
    }

    method SlotAverage(c: nat) returns (avg: int8)
      requires 0 < scoreHistCnt <= scoreHistory.Length && c < NUM_CLASSES && Shaped(scoreHistory[..], NUM_CLASSES)
      ensures avg == Mean(Ring.Column(scoreHistory[..scoreHistCnt], c))
    {
      ghost var col := Ring.Column(scoreHistory[..scoreHistCnt], c);
      var sum: int := 0;
      for w := 0 to scoreHistCnt
        invariant sum == Ring.Sum(col[..w])
      {
        assert col[..w + 1][..w] == col[..w];
        sum := sum + scoreHistory[w][c];
      }
      assert col[..scoreHistCnt] == col;
      MeanFits(col);
      avg := TruncDiv(sum, scoreHistCnt);
    }

    /** Which slot the oldest row is in does not matter. */
    method ClassAverage(c: nat) returns (avg: int8)
      requires RingValid() && |rows| > 0 && c < NUM_CLASSES
      ensures avg == AverageAt(Ring.Latest(rows, window), c)
    {
      Ring.SlotSum(scoreHistory[..], rows, c);
      avg := SlotAverage(c);
    }

    method AverageAll()
      requires RingValid() && |rows| > 0
      modifies smoothScores
      ensures smoothScores[..] == Smooth(rows, window)
    {
      hide AverageAt, Ring.Holds;
      ghost var row := Smooth(rows, window);
      for c := 0 to NUM_CLASSES
        invariant smoothScores[..c] == row[..c]
      {
        smoothScores[c] := ClassAverage(c);
        assert row[c] == AverageAt(Ring.Latest(rows, window), c);
      }
      assert smoothScores[..] == smoothScores[..NUM_CLASSES] && row == row[..NUM_CLASSES];
    }

    method UpdateSmooth(scores: Frame)
      requires RingValid() && |scores| == NUM_CLASSES
      modifies this`rows, this`scoreHistHead, this`scoreHistCnt, scoreHistory, smoothScores
      ensures RingValid() && rows == old(rows) + [scores] && smoothScores[..] == Smooth(rows, window)
    {
      Remember(scores);
      AverageAll();
    }

    method FindBest() returns (best: nat, score: int8)
      requires smoothScores.Length == NUM_CLASSES
      ensures best == Best(smoothScores[..], NUM_CLASSES) && score == smoothScores[best]
    {
      best, score := 0, smoothScores[0];
      for c := 1 to NUM_CLASSES
        invariant best == Best(smoothScores[..], c) && score == smoothScores[best]
      {
        if smoothScores[c] > score {
          score := smoothScores[c];
          best := c;
        }
      }
    }

    /** The main loop's work after a hop's scores have been computed. */
    method ProcessHop(scores: Frame) returns (verdict: Verdict)
      requires Valid() && |scores| == NUM_CLASSES
      modifies this, scoreHistory, smoothScores
      ensures Valid() && rows == old(rows) + [scores] && verdicts == old(verdicts) + [verdict]
    {
      hide Smooth, Smoothed, Run, Countdown, Ring.Holds;
      UpdateSmooth(scores);
      SmoothedNext(old(rows), scores, window);
      RunNext(Smoothed(old(rows), window), smoothScores[..], threshold, debounceHops);
      verdict := Silent;
      if debounceCtr > 0 {
        debounceCtr := debounceCtr - 1;
      } else {
        var best, score := FindBest();
        if best != NUM_CLASSES - 1 && score > threshold {
          verdict := Detect(best, score);
          debounceCtr := debounceHops;
        }
      }
      CountdownNext(verdicts, verdict, debounceHops);
      verdicts := verdicts + [verdict];
    }
  }

  lemma SmoothedNext(rows: seq<Frame>, row: Frame, window: nat)
    requires window > 0 && Shaped(rows, NUM_CLASSES) && |row| == NUM_CLASSES
    ensures Smoothed(rows + [row], window) == Smoothed(rows, window) + [Smooth(rows + [row], window)]
  {
    assert (rows + [row])[..|rows|] == rows;
  }

  lemma RunNext(rows: seq<Frame>, row: Frame, threshold: int, debounce: nat)
    requires Shaped(rows, NUM_CLASSES) && |row| == NUM_CLASSES
    ensures Run(rows + [row], threshold, debounce)
         == Run(rows, threshold, debounce)
            + [if Countdown(Run(rows, threshold, debounce), debounce) > 0 then Silent else Judge(row, threshold)]
  {
    assert (rows + [row])[..|rows|] == rows;
  }

  lemma CountdownNext(verdicts: seq<Verdict>, verdict: Verdict, debounce: nat)
    ensures Countdown(verdicts + [verdict], debounce)
         == if verdict.Detect? then debounce
            else if Countdown(verdicts, debounce) > 0 then Countdown(verdicts, debounce) - 1
            else 0
  {
    assert (verdicts + [verdict])[..|verdicts|] == verdicts;
  }

  // ---- what is reported ------------------------------------------------------------------------

  /** More than d hops are still suppressed exactly if one of the last debounce - d fired. */
  lemma {:induction false} CountdownMeans(verdicts: seq<Verdict>, debounce: nat, d: nat)
    requires d < debounce
    ensures Countdown(verdicts, debounce) > d <==>
            exists j :: |verdicts| - (debounce - d) <= j < |verdicts| && 0 <= j && verdicts[j].Detect?
    decreases |verdicts|
  {
    var n := |verdicts|;
    if n > 0 {
      var prior := verdicts[..n - 1];
      if d + 1 < debounce {
        CountdownMeans(prior, debounce, d + 1);
      }
      assert forall j :: 0 <= j < n - 1 ==> prior[j] == verdicts[j];
      if Countdown(verdicts, debounce) > d && !verdicts[n - 1].Detect? {
        var j :| |prior| - (debounce - d - 1) <= j < |prior| && 0 <= j && prior[j].Detect?;
        assert verdicts[j].Detect?;
      }
    }
  }

  lemma {:induction false} RunAt(rows: seq<Frame>, threshold: int, debounce: nat, k: nat)
    requires Shaped(rows, NUM_CLASSES) && k < |rows|
    ensures var verdicts := Run(rows, threshold, debounce);
            verdicts[k] == if Countdown(verdicts[..k], debounce) > 0 then Silent else Judge(rows[k], threshold)
    decreases |rows|
  {
    var n := |rows| - 1;
    var before, verdicts := Run(rows[..n], threshold, debounce), Run(rows, threshold, debounce);
    if k < n {
      RunAt(rows[..n], threshold, debounce, k);
      assert verdicts[..k] == before[..k];
    } else {
      assert verdicts[..k] == before;
    }
  }

  /** Class b is one of the ten keywords, has the highest score, is the first that has it, and
      its score is above the threshold. */
  predicate Confident(row: Frame, b: nat, threshold: int) {
    && |row| == 11 && b < 10 && row[b] > threshold
    && (forall c :: 0 <= c < 11 ==> row[c] <= row[b]) && (forall c :: 0 <= c < b ==> row[c] < row[b])
  }

  ghost predicate SomeConfident(row: Frame, threshold: int) {
    exists b: nat :: Confident(row, b, threshold)
  }

  lemma JudgeIsConfident(row: Frame, threshold: int)
    requires |row| == NUM_CLASSES
    ensures Judge(row, threshold).Detect? <==> SomeConfident(row, threshold)
    ensures forall b: nat :: Confident(row, b, threshold) ==> Judge(row, threshold) == Detect(b, row[b])
  {
    var best := Best(row, NUM_CLASSES);
    forall b: nat | Confident(row, b, threshold) ensures b == best {
      assert row[best] <= row[b] && row[b] <= row[best];
      assert !(best < b) && !(b < best);
    }
    if Judge(row, threshold).Detect? {
      assert Confident(row, best, threshold);
    }
  }

  /** A hop is reported exactly if some class is confident and none of the last debounce hops
      was reported, and then with that class and its score. */
  lemma FiresExactly(rows: seq<Frame>, threshold: int, debounce: nat, k: nat)
    requires Shaped(rows, NUM_CLASSES) && k < |rows|
    ensures var verdicts := Run(rows, threshold, debounce);
            && (verdicts[k].Detect? <==>
                  SomeConfident(rows[k], threshold)
                  && forall j :: 0 <= j < k && k - debounce <= j ==> !verdicts[j].Detect?)
            && (verdicts[k].Detect? ==>
                  Confident(rows[k], verdicts[k].class_, threshold)
                  && verdicts[k].score == rows[k][verdicts[k].class_])
  {
    var verdicts := Run(rows, threshold, debounce);
    RunAt(rows, threshold, debounce, k);
    JudgeIsConfident(rows[k], threshold);
    hide Judge, Confident, SomeConfident;
    if debounce > 0 {
      var prior := verdicts[..k];
      CountdownMeans(prior, debounce, 0);
      assert forall j :: 0 <= j < k ==> prior[j] == verdicts[j];
    }
  }

  lemma {:induction false} SmoothedAt(rows: seq<Frame>, window: nat, k: nat)
    requires Shaped(rows, NUM_CLASSES) && window > 0 && k < |rows|
    ensures Smoothed(rows, window)[k] == Smooth(rows[..k + 1], window)
    decreases |rows|
  {
    hide Smooth;
    var last := |rows| - 1;
    if k < last {
      SmoothedAt(rows[..last], window, k);
      assert rows[..last][..k + 1] == rows[..k + 1];
    } else {
      assert rows[..k + 1] == rows;
    }
  }

  /** A smoothed score is the mean of the last `window` scores of its class (of all while
      there are fewer), rounded toward zero. */
  lemma SmoothedMeans(rows: seq<Frame>, window: nat, k: nat, c: nat)
    requires Shaped(rows, NUM_CLASSES) && window > 0 && k < |rows| && c < NUM_CLASSES
    ensures var n := if k + 1 < window then k + 1 else window;
            LayerMeaning.Truncates(Smoothed(rows, window)[k][c],
                                   LayerMeaning.ChannelTotal(rows[k + 1 - n..k + 1], c, n), n)
  {
    hide LayerMeaning.Truncates, AverageAt;
    SmoothedAt(rows, window, k);
    var n := if k + 1 < window then k + 1 else window;
    var last := Ring.Latest(rows[..k + 1], window);
    assert last == rows[k + 1 - n..k + 1];
    LayerMeaning.AverageMeans(last, c);
  }

  /** Any two reports are more than debounce hops apart. */
  lemma ReportsApart(rows: seq<Frame>, threshold: int, debounce: nat, i: nat, j: nat)
    requires Shaped(rows, NUM_CLASSES) && i < j < |rows|
    requires Run(rows, threshold, debounce)[i].Detect? && Run(rows, threshold, debounce)[j].Detect?
    ensures j - i >= debounce + 1
  {
    FiresExactly(rows, threshold, debounce, j);
  }

  lemma {:induction false} SmoothedPrefix(rows: seq<Frame>, window: nat, n: nat)
    requires Shaped(rows, NUM_CLASSES) && window > 0 && n <= |rows|
    ensures Smoothed(rows, window)[..n] == Smoothed(rows[..n], window)
    decreases |rows|
  {
    hide Smooth;
    var last := |rows| - 1;
    if n <= last {
      SmoothedPrefix(rows[..last], window, n);
      assert rows[..last][..n] == rows[..n];
    } else {
      assert rows[..n] == rows;
    }
  }

  lemma {:induction false} RunPrefix(rows: seq<Frame>, threshold: int, debounce: nat, n: nat)
    requires Shaped(rows, NUM_CLASSES) && n <= |rows|
    ensures Run(rows, threshold, debounce)[..n] == Run(rows[..n], threshold, debounce)
    decreases |rows|
  {
    hide Countdown, Judge;
    var last := |rows| - 1;
    if n <= last {
      RunPrefix(rows[..last], threshold, debounce, n);
      assert rows[..last][..n] == rows[..n];
    } else {
      assert rows[..n] == rows;
    }
  }

  /** Later hops change no earlier report. */
  lemma ReportsStand(rows: seq<Frame>, window: nat, threshold: int, debounce: nat, n: nat)
    requires Shaped(rows, NUM_CLASSES) && window > 0 && n <= |rows|
    ensures Run(Smoothed(rows, window), threshold, debounce)[..n]
         == Run(Smoothed(rows[..n], window), threshold, debounce)
  {
    hide Run, Smoothed;
    SmoothedPrefix(rows, window, n);
    RunPrefix(Smoothed(rows, window), threshold, debounce, n);
  }
}
