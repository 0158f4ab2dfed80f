/** Greedy energy binning for flux points (calculate_flux_point_binning in
    gammapy/spectrum/utils.py).

    The observation's counts vector has fine energy bins; fine bin i spans the
    edges `edges[i] .. edges[i + 1]`. Starting at the first node above the low
    threshold, the rule merges `factor` consecutive fine bins; when the merged
    window is not significant it widens the window by one fine bin, otherwise
    it emits the window's upper edge and continues from there. The factor is
    never reset, so the windows between neighbouring emitted nodes only grow
    wider. Finally the last emitted edge is overwritten by the high threshold,
    so the last output bin need not be such a window. */
module FluxPointBinning {
  import opened Outcomes

  /** The stacked significance test over the fine bins `[lo, hi)`: true exactly
      when the stacked sigma is at least min_signif and is not NaN. */
  type SignificanceTest = (nat, nat) -> bool

  /** The single observation the binning reads. */
  datatype Observation = Observation(
    edges: seq<real>,                // energy edges of the ON counts vector
    loNode: nat,                     // find_node(lo_threshold); a result of -1 is not representable
    hiNode: nat,                     // find_node(hi_threshold)
    hiThreshold: real,
    significant: SignificanceTest)

  /** Assumed of find_node, which is not part of this model: the node it
      returns for the high threshold indexes into the edge array. */
  predicate NodesInRange(obs: Observation) {
    obs.hiNode < |obs.edges|
  }

  predicate StrictlyIncreasing(s: seq<real>) {
    forall i, j :: 0 <= i < j < |s| ==> s[i] < s[j]
  }

  /** The rebin factor the loop starts with: every flux point needs at least
      two fine bins. */
  const InitialRebinFactor: nat := 2

  /** A merged window of fine bins `[lo, hi)`. */
  datatype Window = Window(lo: nat, hi: nat) {
    function Width(): int { hi - lo }
  }

  /** The windows the loop accepts from state (cur, factor) when the last
      admissible upper node is maxBin. */
  function Schedule(sig: SignificanceTest, cur: nat, factor: nat, maxBin: nat): (ws: seq<Window>)
    requires factor >= InitialRebinFactor
    ensures |ws| == 0 || cur + 2 * |ws| <= maxBin
    decreases maxBin + 1 - cur - factor
  {
    if cur + factor > maxBin then []
    else if !sig(cur, cur + factor) then Schedule(sig, cur, factor + 1, maxBin)
    else [Window(cur, cur + factor)] + Schedule(sig, cur + factor, factor, maxBin)
  }

  /** Consecutive windows from node `start`: each significant, at least
      `factor` fine bins wide and ending at or below `maxBin`, each beginning
      where the previous ends and no narrower than it. */
  ghost predicate Chain(sig: SignificanceTest, start: nat, factor: int, maxBin: nat, ws: seq<Window>) {
    && (|ws| > 0 ==> ws[0].lo == start)
    && (forall k :: 0 <= k < |ws| ==> factor <= ws[k].Width() && ws[k].hi <= maxBin && sig(ws[k].lo, ws[k].hi))
    && (forall i, j :: 0 <= i && j == i + 1 < |ws| ==> ws[j].lo == ws[i].hi && ws[i].Width() <= ws[j].Width())
  }

  /** The accepted windows form a chain: they tile the fine bins from the
      start node on, are significant, never exceed maxBin, and never shrink. */
  lemma {:induction false} ScheduleIsChain(sig: SignificanceTest, cur: nat, factor: nat, maxBin: nat)
    requires factor >= InitialRebinFactor
    ensures Chain(sig, cur, factor, maxBin, Schedule(sig, cur, factor, maxBin))
    decreases maxBin + 1 - cur - factor
  {
    if cur + factor > maxBin {
    } else if !sig(cur, cur + factor) {
      ScheduleIsChain(sig, cur, factor + 1, maxBin);
    } else {
      ScheduleIsChain(sig, cur + factor, factor, maxBin);
      ChainCons(sig, cur, factor, maxBin, Schedule(sig, cur + factor, factor, maxBin));
    }
  }

  /** Putting the window `[cur, cur + factor)` in front of a chain from its
      upper node with the same factor gives a chain from `cur`. */
  lemma ChainCons(sig: SignificanceTest, cur: nat, factor: nat, maxBin: nat, rest: seq<Window>)
    requires cur + factor <= maxBin && sig(cur, cur + factor)
    requires Chain(sig, cur + factor, factor, maxBin, rest)
    ensures Chain(sig, cur, factor, maxBin, [Window(cur, cur + factor)] + rest)
  {
    var ws := [Window(cur, cur + factor)] + rest;
    forall i, j | 0 <= i && j == i + 1 < |ws|
      ensures ws[j].lo == ws[i].hi && ws[i].Width() <= ws[j].Width()
    {
      if i > 0 {
        assert ws[i] == rest[i - 1] && ws[j] == rest[j - 1];
      }
    }
  }

  /** The loop's own view of the schedule: the windows accepted so far,
      `acc`, extended by running the rule from state (cur, factor). */
  function Run(sig: SignificanceTest, cur: nat, factor: nat, maxBin: nat, acc: seq<Window>): seq<Window>
    requires factor >= InitialRebinFactor
    decreases maxBin + 1 - cur - factor
  {
    if cur + factor > maxBin then acc
    else if !sig(cur, cur + factor) then Run(sig, cur, factor + 1, maxBin, acc)
    else Run(sig, cur + factor, factor, maxBin, acc + [Window(cur, cur + factor)])
  }

  /** Running the loop from any state appends exactly the schedule of that
      state to what was accepted before. */
  lemma {:induction false} RunIsSchedule(sig: SignificanceTest, cur: nat, factor: nat, maxBin: nat, acc: seq<Window>)
    requires factor >= InitialRebinFactor
    ensures Run(sig, cur, factor, maxBin, acc) == acc + Schedule(sig, cur, factor, maxBin)
    decreases maxBin + 1 - cur - factor
  {
    if cur + factor > maxBin {
      assert acc + [] == acc;
    } else if !sig(cur, cur + factor) {
      RunIsSchedule(sig, cur, factor + 1, maxBin, acc);
    } else {
      var w := Window(cur, cur + factor);
      var rest := Schedule(sig, cur + factor, factor, maxBin);
      RunIsSchedule(sig, cur + factor, factor, maxBin, acc + [w]);
      assert (acc + [w]) + rest == acc + ([w] + rest);
    }
  }

  // ---------------------------------------------------------------------------
  // A declarative description of the greedy rule, independent of the recursion

  /** Lower node of the k-th window of a run that starts at node `start`. */
  function LoAt(ws: seq<Window>, k: nat, start: nat): nat
    requires k <= |ws|
  {
    if k == 0 then start else ws[k - 1].hi
  }

  /** Rebin factor in force while the k-th window is searched for. */
  function FactorAt(ws: seq<Window>, k: nat, factor0: int): int
    requires k <= |ws|
  {
    if k == 0 then factor0 else ws[k - 1].Width()
  }

  /** `w` is the narrowest significant window from `lo` that is at least
      `factor` fine bins wide and ends at or below `maxBin`. */
  ghost predicate FirstSignificant(sig: SignificanceTest, lo: nat, factor: int, maxBin: nat, w: Window) {
    && w.lo == lo
    && lo + factor <= w.hi <= maxBin
    && sig(w.lo, w.hi)
    && forall h: nat :: lo + factor <= h < w.hi ==> !sig(lo, h)
  }

  /** No window from `lo`, at least `factor` wide and ending at or below
      `maxBin`, is significant. */
  ghost predicate Exhausted(sig: SignificanceTest, lo: nat, factor: int, maxBin: nat) {
    forall h: nat :: lo + factor <= h <= maxBin ==> !sig(lo, h)
  }

  ghost predicate AcceptedAt(sig: SignificanceTest, start: nat, factor0: int, maxBin: nat, ws: seq<Window>, k: nat)
    requires k < |ws|
  {
    FirstSignificant(sig, LoAt(ws, k, start), FactorAt(ws, k, factor0), maxBin, ws[k])
  }

  /** `ws` is what the greedy rule produces: each window is the first
      significant one from where the previous ended, at least as wide as the
      previous, and once the windows stop nothing admissible is significant. */
  ghost predicate IsGreedyRun(sig: SignificanceTest, start: nat, factor0: int, maxBin: nat, ws: seq<Window>) {
    && (forall k :: 0 <= k < |ws| ==> AcceptedAt(sig, start, factor0, maxBin, ws, k))
    && Exhausted(sig, LoAt(ws, |ws|, start), FactorAt(ws, |ws|, factor0), maxBin)
  }

  /** A greedy run is its first window followed by a greedy run from that
      window's upper node with that window's width as factor. */
  lemma GreedyRunCons(sig: SignificanceTest, start: nat, factor0: int, maxBin: nat, ws: seq<Window>)
    requires |ws| > 0
    ensures IsGreedyRun(sig, start, factor0, maxBin, ws) <==>
              && FirstSignificant(sig, start, factor0, maxBin, ws[0])
              && IsGreedyRun(sig, ws[0].hi, ws[0].Width(), maxBin, ws[1..])
  {
    var rest := ws[1..];
    forall k | 1 <= k <= |ws|
      ensures LoAt(ws, k, start) == LoAt(rest, k - 1, ws[0].hi)
      ensures FactorAt(ws, k, factor0) == FactorAt(rest, k - 1, ws[0].Width())
    {
    }
    if IsGreedyRun(sig, start, factor0, maxBin, ws) {
      assert AcceptedAt(sig, start, factor0, maxBin, ws, 0);
      forall j | 0 <= j < |rest|
        ensures AcceptedAt(sig, ws[0].hi, ws[0].Width(), maxBin, rest, j)
      {
        assert AcceptedAt(sig, start, factor0, maxBin, ws, j + 1);
      }
    }
    if FirstSignificant(sig, start, factor0, maxBin, ws[0]) && IsGreedyRun(sig, ws[0].hi, ws[0].Width(), maxBin, rest) {
      forall k | 0 <= k < |ws|
        ensures AcceptedAt(sig, start, factor0, maxBin, ws, k)
      {
        if k > 0 {
          assert AcceptedAt(sig, ws[0].hi, ws[0].Width(), maxBin, rest, k - 1);
        }
      }
    }
  }

  /** Widening past a window that is not significant does not change which
      runs are greedy. */
  lemma GreedyRunWiden(sig: SignificanceTest, cur: nat, factor: nat, maxBin: nat, ws: seq<Window>)
    requires !sig(cur, cur + factor)
    ensures IsGreedyRun(sig, cur, factor, maxBin, ws) <==> IsGreedyRun(sig, cur, factor + 1, maxBin, ws)
  {
    if |ws| > 0 {
      GreedyRunCons(sig, cur, factor, maxBin, ws);
      GreedyRunCons(sig, cur, factor + 1, maxBin, ws);
      if FirstSignificant(sig, cur, factor, maxBin, ws[0]) {
        assert ws[0].hi != cur + factor;
      }
    }
  }

  /** Accepting the significant window `[cur, cur + factor)` in front of a
      greedy run from its upper node gives a greedy run from `cur`. */
  lemma GreedyRunAccept(sig: SignificanceTest, cur: nat, factor: nat, maxBin: nat, rest: seq<Window>)
    requires cur + factor <= maxBin && sig(cur, cur + factor)
    requires IsGreedyRun(sig, cur + factor, factor, maxBin, rest)
    ensures IsGreedyRun(sig, cur, factor, maxBin, [Window(cur, cur + factor)] + rest)
  {
    var ws := [Window(cur, cur + factor)] + rest;
    assert ws[1..] == rest;
    GreedyRunCons(sig, cur, factor, maxBin, ws);
  }

  /** Conversely, when `[cur, cur + factor)` is admissible and significant, a
      greedy run from `cur` must accept exactly that window first. */
  lemma GreedyRunHead(sig: SignificanceTest, cur: nat, factor: nat, maxBin: nat, ws: seq<Window>)
    requires cur + factor <= maxBin && sig(cur, cur + factor)
    requires IsGreedyRun(sig, cur, factor, maxBin, ws)
    ensures |ws| > 0 && ws[0] == Window(cur, cur + factor)
    ensures IsGreedyRun(sig, cur + factor, factor, maxBin, ws[1..])
  {
    assert |ws| > 0;
    GreedyRunCons(sig, cur, factor, maxBin, ws);
    assert ws[0].hi == cur + factor;
  }

  /** The recursive schedule follows the greedy rule. */
  lemma {:induction false} ScheduleIsGreedy(sig: SignificanceTest, cur: nat, factor: nat, maxBin: nat)
    requires factor >= InitialRebinFactor
    ensures IsGreedyRun(sig, cur, factor, maxBin, Schedule(sig, cur, factor, maxBin))
    decreases maxBin + 1 - cur - factor
  {
    if cur + factor > maxBin {
      assert Schedule(sig, cur, factor, maxBin) == [];
    } else if !sig(cur, cur + factor) {
      ScheduleIsGreedy(sig, cur, factor + 1, maxBin);
      GreedyRunWiden(sig, cur, factor, maxBin, Schedule(sig, cur, factor + 1, maxBin));
    } else {
      ScheduleIsGreedy(sig, cur + factor, factor, maxBin);
      GreedyRunAccept(sig, cur, factor, maxBin, Schedule(sig, cur + factor, factor, maxBin));
    }
  }

  /** Any run following the greedy rule is the recursive schedule: the rule
      determines the windows uniquely. */
  lemma {:induction false} GreedyRunIsSchedule(sig: SignificanceTest, cur: nat, factor: nat, maxBin: nat, ws: seq<Window>)
    requires factor >= InitialRebinFactor
    requires IsGreedyRun(sig, cur, factor, maxBin, ws)
    ensures ws == Schedule(sig, cur, factor, maxBin)
    decreases maxBin + 1 - cur - factor
  {
    if cur + factor > maxBin {
      if |ws| > 0 {
        GreedyRunCons(sig, cur, factor, maxBin, ws);
      }
    } else if !sig(cur, cur + factor) {
      GreedyRunWiden(sig, cur, factor, maxBin, ws);
      GreedyRunIsSchedule(sig, cur, factor + 1, maxBin, ws);
    } else {
      GreedyRunHead(sig, cur, factor, maxBin, ws);
      GreedyRunIsSchedule(sig, cur + factor, factor, maxBin, ws[1..]);
      assert ws == [ws[0]] + ws[1..];
    }
  }

  /** When the loop stops, the windows it accepted are the schedule of its
      start state. */
  lemma LoopExitIsSchedule(sig: SignificanceTest, start: nat, cur: nat, factor: nat, maxBin: nat,
                           accepted: seq<Window>)
    requires factor >= InitialRebinFactor && cur + factor > maxBin
    requires Run(sig, start, InitialRebinFactor, maxBin, []) == Run(sig, cur, factor, maxBin, accepted)
    ensures accepted == Schedule(sig, start, InitialRebinFactor, maxBin)
  {
    RunIsSchedule(sig, start, InitialRebinFactor, maxBin, []);
    assert [] + Schedule(sig, start, InitialRebinFactor, maxBin) == Schedule(sig, start, InitialRebinFactor, maxBin);
  }

  // ---------------------------------------------------------------------------
  // The binning itself

  /** Node indices of the emitted edges: the start node, then the upper node
      of every accepted window. */
  function EmittedNodes(start: nat, ws: seq<Window>): (nodes: seq<nat>)
    ensures |nodes| == |ws| + 1 && nodes[0] == start
    ensures forall k :: 0 <= k < |ws| ==> nodes[k + 1] == ws[k].hi
  {
    [start] + seq(|ws|, k requires 0 <= k < |ws| => ws[k].hi)
  }

  lemma EmittedNodesSnoc(start: nat, ws: seq<Window>, w: Window)
    ensures EmittedNodes(start, ws + [w]) == EmittedNodes(start, ws) + [w.hi]
  {
  }

  /** The node indices a single observation's binning is read from. */
  function BinningNodes(obs: Observation): (nodes: seq<nat>)
    ensures |nodes| >= 1 && nodes[0] == obs.loNode + 1
    ensures forall i :: 0 < i < |nodes| ==> nodes[i] <= obs.hiNode
  {
    var start := obs.loNode + 1;
    ScheduleIsChain(obs.significant, start, InitialRebinFactor, obs.hiNode);
    EmittedNodes(start, Schedule(obs.significant, start, InitialRebinFactor, obs.hiNode))
  }

  /** The edge values at the given node indices. */
  function EdgesAt(edges: seq<real>, nodes: seq<nat>): (e: seq<real>)
    requires forall i :: 0 <= i < |nodes| ==> nodes[i] < |edges|
    ensures |e| == |nodes|
    ensures forall i :: 0 <= i < |nodes| ==> e[i] == edges[nodes[i]]
  {
    seq(|nodes|, i requires 0 <= i < |nodes| => edges[nodes[i]])
  }

  /** The energy binning computed from a list of observations. */
  function FluxPointBinning(obsList: seq<Observation>): (r: Result<seq<real>>)
    requires |obsList| == 1 ==> NodesInRange(obsList[0])
    ensures |obsList| > 1 <==> r == Err(NotImplemented("stack counts"))
    ensures |obsList| == 0 ==> r == Err(IndexError)
    ensures |obsList| == 1 ==> (r.Ok? <==> obsList[0].loNode + 1 < |obsList[0].edges|)
    ensures |obsList| == 1 && obsList[0].loNode + 1 >= |obsList[0].edges| ==> r == Err(IndexError)
    ensures r.Ok? ==> |r.value| >= 1 && r.value[|r.value| - 1] == obsList[0].hiThreshold
  {
    if |obsList| > 1 then Err(NotImplemented("stack counts"))
    else if |obsList| == 0 then Err(IndexError)
    else
      var obs := obsList[0];
      if obs.loNode + 1 >= |obs.edges| then Err(IndexError)
      else
        var nodes := BinningNodes(obs);
        Ok(EdgesAt(obs.edges, nodes)[|nodes| - 1 := obs.hiThreshold])
  }

  /** gammapy's calculate_flux_point_binning: the checks on the observation
      list and the start node, the merging loop, then the high threshold
      written over the last emitted edge. */
  method CalculateFluxPointBinning(obsList: seq<Observation>) returns (r: Result<seq<real>>)
    requires |obsList| == 1 ==> NodesInRange(obsList[0])
    ensures r == FluxPointBinning(obsList)
  {
    if |obsList| > 1 {
      return Err(NotImplemented("stack counts"));
    }
    if |obsList| == 0 {
      return Err(IndexError);
    }
    var obs := obsList[0];
    if obs.loNode + 1 >= |obs.edges| {
      return Err(IndexError);
    }
    var binning := MergeBins(obs);
    binning := binning[|binning| - 1 := obs.hiThreshold];
    r := Ok(binning);
  }

  /** The merging loop, step by step. Each iteration either widens the
      window or moves past it, so `maxBin + 1 - (currentBin + rebinFactor)`
      decreases. */
  method MergeBins(obs: Observation) returns (binning: seq<real>)
    requires NodesInRange(obs) && obs.loNode + 1 < |obs.edges|
    ensures binning == EdgesAt(obs.edges, BinningNodes(obs))
  {
    var rebinFactor: nat := InitialRebinFactor;
    var sig := obs.significant;
    var currentBin: nat := obs.loNode + 1;
    var maxBin := obs.hiNode;
    binning := [obs.edges[currentBin]];
    ghost var start := currentBin;
    ghost var accepted: seq<Window> := [];
    ghost var nodes := [currentBin];
    while currentBin + rebinFactor <= maxBin
      invariant rebinFactor >= InitialRebinFactor
      invariant Run(sig, start, InitialRebinFactor, maxBin, []) == Run(sig, currentBin, rebinFactor, maxBin, accepted)
      invariant nodes == EmittedNodes(start, accepted)
      invariant forall i :: 0 <= i < |nodes| ==> nodes[i] < |obs.edges|
      invariant |binning| == |nodes| && forall i :: 0 <= i < |nodes| ==> binning[i] == obs.edges[nodes[i]]
      decreases maxBin + 1 - currentBin - rebinFactor
    {
      if !sig(currentBin, currentBin + rebinFactor) {
        rebinFactor := rebinFactor + 1;
        continue;
      }
      var w := Window(currentBin, currentBin + rebinFactor);
      EmittedNodesSnoc(start, accepted, w);
      binning := binning + [obs.edges[currentBin + rebinFactor]];
      accepted := accepted + [w];
      nodes := nodes + [w.hi];
      currentBin := currentBin + rebinFactor;
    }
    LoopExitIsSchedule(sig, start, currentBin, rebinFactor, maxBin, accepted);
    assert nodes == BinningNodes(obs);
  }

  // ---------------------------------------------------------------------------
  // Properties of the result

  /** The emitted node indices are strictly increasing; every window between
      neighbouring emitted nodes spans at least two fine bins, is significant,
      and is no narrower than the window before it. */
  lemma BinningNodesShape(obs: Observation)
    ensures var nodes := BinningNodes(obs);
      && (forall i, j :: 0 <= i && j == i + 1 < |nodes| ==>
            nodes[i] + InitialRebinFactor <= nodes[j] && obs.significant(nodes[i], nodes[j]))
      && (forall i, j, k :: 0 <= i && j == i + 1 && k == j + 1 < |nodes| ==>
            nodes[j] - nodes[i] <= nodes[k] - nodes[j])
      && (forall i, j :: 0 <= i < j < |nodes| ==> nodes[i] < nodes[j])
  {
    var start := obs.loNode + 1;
    var ws := Schedule(obs.significant, start, InitialRebinFactor, obs.hiNode);
    var nodes := BinningNodes(obs);
    ScheduleIsChain(obs.significant, start, InitialRebinFactor, obs.hiNode);
    AdjacentNodesSignificant(obs.significant, start, obs.hiNode, ws, nodes);
    NodeGapsWiden(obs.significant, start, obs.hiNode, ws, nodes);
    NodesIncreasing(obs.significant, start, obs.hiNode, ws, nodes);
  }

  /** Neighbouring emitted nodes of a chain are at least two fine bins apart
      and the fine bins between them are significant. */
  lemma AdjacentNodesSignificant(sig: SignificanceTest, start: nat, maxBin: nat, ws: seq<Window>, nodes: seq<nat>)
    requires Chain(sig, start, InitialRebinFactor, maxBin, ws) && nodes == EmittedNodes(start, ws)
    ensures forall i, j :: 0 <= i && j == i + 1 < |nodes| ==>
              nodes[i] + InitialRebinFactor <= nodes[j] && sig(nodes[i], nodes[j])
  {
    NodesFollowWindows(start, ws);
    forall i, j | 0 <= i && j == i + 1 < |nodes|
      ensures nodes[i] + InitialRebinFactor <= nodes[j] && sig(nodes[i], nodes[j])
    {
      assert nodes[i] == ws[i].lo && nodes[j] == ws[i].hi;
    }
  }

  /** The gaps between emitted nodes of a chain never shrink. */
  lemma NodeGapsWiden(sig: SignificanceTest, start: nat, maxBin: nat, ws: seq<Window>, nodes: seq<nat>)
    requires Chain(sig, start, InitialRebinFactor, maxBin, ws) && nodes == EmittedNodes(start, ws)
    ensures forall i, j, k :: 0 <= i && j == i + 1 && k == j + 1 < |nodes| ==>
              nodes[j] - nodes[i] <= nodes[k] - nodes[j]
  {
    NodesFollowWindows(start, ws);
    forall i, j, k | 0 <= i && j == i + 1 && k == j + 1 < |nodes|
      ensures nodes[j] - nodes[i] <= nodes[k] - nodes[j]
    {
      assert nodes[j] - nodes[i] == ws[i].Width();
      assert nodes[k] - nodes[j] == ws[j].Width();
    }
  }

  /** The emitted nodes of a chain are strictly increasing. */
  lemma NodesIncreasing(sig: SignificanceTest, start: nat, maxBin: nat, ws: seq<Window>, nodes: seq<nat>)
    requires Chain(sig, start, InitialRebinFactor, maxBin, ws) && nodes == EmittedNodes(start, ws)
    ensures forall i, j :: 0 <= i < j < |nodes| ==> nodes[i] < nodes[j]
  {
    AdjacentNodesSignificant(sig, start, maxBin, ws, nodes);
    forall i, j | 0 <= i < j < |nodes|
      ensures nodes[i] < nodes[j]
    {
      IncreasingStep(nodes, i, j);
    }
  }

  /** In a chain of windows, node k is the lower end of window k. */
  lemma NodesFollowWindows(start: nat, ws: seq<Window>)
    requires |ws| > 0 ==> ws[0].lo == start
    requires forall i, j :: 0 <= i && j == i + 1 < |ws| ==> ws[j].lo == ws[i].hi
    ensures forall i :: 0 <= i < |ws| ==>
              EmittedNodes(start, ws)[i] == ws[i].lo && EmittedNodes(start, ws)[i + 1] == ws[i].hi
  {
    var nodes := EmittedNodes(start, ws);
    forall i | 0 <= i < |ws|
      ensures nodes[i] == ws[i].lo && nodes[i + 1] == ws[i].hi
    {
      if i > 0 {
        assert ws[i].lo == ws[i - 1].hi by {
          var p := i - 1;
          assert ws[p + 1] == ws[i];
        }
      }
    }
  }

  /** A sequence whose neighbours strictly increase is strictly increasing. */
  lemma {:induction false} IncreasingStep(s: seq<nat>, i: nat, j: nat)
    requires forall p, q :: 0 <= p && q == p + 1 < |s| ==> s[p] < s[q]
    requires i < j < |s|
    ensures s[i] < s[j]
    decreases j - i
  {
    assert s[i] < s[i + 1];
    if i + 1 < j {
      IncreasingStep(s, i + 1, j);
    }
  }

  /** Every element but the last is the unchanged fine-bin edge at the
      corresponding emitted node; the last is the high threshold. */
  lemma BinningFromNodes(obsList: seq<Observation>)
    requires |obsList| == 1 && NodesInRange(obsList[0])
    requires obsList[0].loNode + 1 < |obsList[0].edges|
    ensures var r := FluxPointBinning(obsList);
      var obs := obsList[0];
      var nodes := BinningNodes(obs);
      && r.Ok?
      && |r.value| == |nodes|
      && (forall i :: 0 <= i < |nodes| - 1 ==> nodes[i] < |obs.edges| && r.value[i] == obs.edges[nodes[i]])
      && r.value[|nodes| - 1] == obs.hiThreshold
  {
  }

  /** The binning collapses to the single high-threshold edge exactly when no
      window from the start node, at least two fine bins wide and ending at
      or below the high-threshold node, is significant. */
  lemma SingleEdgeIffNothingSignificant(obsList: seq<Observation>)
    requires |obsList| == 1 && NodesInRange(obsList[0])
    requires obsList[0].loNode + 1 < |obsList[0].edges|
    ensures var obs := obsList[0];
      FluxPointBinning(obsList) == Ok([obs.hiThreshold]) <==>
      Exhausted(obs.significant, obs.loNode + 1, InitialRebinFactor, obs.hiNode)
  {
    var obs := obsList[0];
    var start := obs.loNode + 1;
    var ws := Schedule(obs.significant, start, InitialRebinFactor, obs.hiNode);
    assert BinningNodes(obs) == EmittedNodes(start, ws);
    if Exhausted(obs.significant, start, InitialRebinFactor, obs.hiNode) {
      assert IsGreedyRun(obs.significant, start, InitialRebinFactor, obs.hiNode, []);
      GreedyRunIsSchedule(obs.significant, start, InitialRebinFactor, obs.hiNode, []);
      assert ws == [];
      assert EdgesAt(obs.edges, BinningNodes(obs))[0 := obs.hiThreshold] == [obs.hiThreshold];
    }
    if FluxPointBinning(obsList) == Ok([obs.hiThreshold]) {
      assert |BinningNodes(obs)| == 1;
      assert ws == [];
      ScheduleIsGreedy(obs.significant, start, InitialRebinFactor, obs.hiNode);
    }
  }

  /** With strictly increasing fine edges, the binning below the high
      threshold is strictly increasing. */
  lemma BinningIncreasing(obsList: seq<Observation>)
    requires |obsList| == 1 && NodesInRange(obsList[0])
    requires StrictlyIncreasing(obsList[0].edges)
    ensures var r := FluxPointBinning(obsList);
      r.Ok? ==> StrictlyIncreasing(r.value[..|r.value| - 1])
  {
    var obs := obsList[0];
    if obs.loNode + 1 < |obs.edges| {
      BinningFromNodes(obsList);
      BinningNodesShape(obs);
    }
  }
}
