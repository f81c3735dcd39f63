/** The ant-colony scheduler's mutable state and its in-place steps: the
    duration and pheromone matrices, the best-node and exploit-threshold
    arrays, path construction, makespan evaluation, the pheromone update and
    the iteration loop. Every random draw is a parameter. */
module Aco {
  import opened AcoSpec

  /** Contents of a two-dimensional array as a matrix of rows. */
  ghost function Grid(m: array2<real>): (g: Matrix)
    reads m
    ensures |g| == m.Length0
    ensures forall t :: 0 <= t < m.Length0 ==> |g[t]| == m.Length1
    ensures forall t, n :: 0 <= t < m.Length0 && 0 <= n < m.Length1 ==> g[t][n] == m[t, n]
  {
    seq(m.Length0, t requires 0 <= t < m.Length0 reads m =>
      seq(m.Length1, n requires 0 <= n < m.Length1 reads m => m[t, n]))
  }

  /** Row t of a two-dimensional array. */
  ghost function Row(m: array2<real>, t: nat): (r: seq<real>)
    requires t < m.Length0
    reads m
    ensures |r| == m.Length1
    ensures forall n :: 0 <= n < m.Length1 ==> r[n] == m[t, n]
  {
    Grid(m)[t]
  }

  /** The flags of ant a in the (ant, task, node) path buffer. */
  ghost function AntPath(path: array3<int>, a: nat): (f: Flags)
    requires a < path.Length0
    reads path
    ensures |f| == path.Length1
    ensures forall t :: 0 <= t < path.Length1 ==> |f[t]| == path.Length2
    ensures forall t, n :: 0 <= t < path.Length1 && 0 <= n < path.Length2 ==> f[t][n] == path[a, t, n]
  {
    seq(path.Length1, t requires 0 <= t < path.Length1 reads path =>
      seq(path.Length2, n requires 0 <= n < path.Length2 reads path => path[a, t, n]))
  }

  /** The (minTime, minIndex) scan over one iteration's makespans: the index
      of the first ant with the least makespan below MinTimeStart, or -1. */
  method SelectBestAnt(times: array<real>) returns (minIndex: int)
    ensures minIndex == BestAnt(times[..])
  {
    var minTime := MinTimeStart;
    minIndex := -1;
    for antIndex := 0 to times.Length
      invariant (minTime, minIndex) == MinScan(times[..antIndex])
    {
      assert times[..antIndex + 1][..antIndex] == times[..antIndex];
      if times[antIndex] < minTime {
        minTime := times[antIndex];
        minIndex := antIndex;
      }
    }
    assert times[..times.Length] == times[..];
  }

  class Colony {
    /** Length of each task. */
    const lengths: seq<int>
    /** Processing speed of each node. */
    const speeds: seq<int>
    const taskNum: nat
    const nodeNum: nat
    const antNum: nat
    /** time[t, n]: how long task t takes on node n. */
    const time: array2<real>
    /** pheromone[t, n]: desirability of putting task t on node n. */
    const pheromone: array2<real>
    /** bestNode[t]: the node with the most pheromone in row t. */
    const bestNode: array<int>
    /** critical[t]: ants numbered up to critical[t] exploit on task t. */
    const critical: array<int>

    /** Dimensions and the positivity of lengths and speeds. */
    ghost predicate Shape()
    {
      && taskNum == |lengths| && taskNum > 0
      && nodeNum == |speeds| && nodeNum >= 2
      && antNum > 0
      && (forall t :: 0 <= t < taskNum ==> lengths[t] > 0)
      && (forall n :: 0 <= n < nodeNum ==> speeds[n] > 0)
      && time.Length0 == taskNum && time.Length1 == nodeNum
      && pheromone.Length0 == taskNum && pheromone.Length1 == nodeNum
      && bestNode.Length == taskNum && critical.Length == taskNum
      && time != pheromone && bestNode != critical
    }

    /** Every duration is length / speed. */
    ghost predicate TimeSet()
      requires Shape()
      reads time
    {
      forall t, n :: 0 <= t < taskNum && 0 <= n < nodeNum ==> time[t, n] == Duration(lengths[t], speeds[n])
    }

    ghost predicate PheromonePositive()
      requires Shape()
      reads pheromone
    {
      forall t, n :: 0 <= t < taskNum && 0 <= n < nodeNum ==> pheromone[t, n] > 0.0
    }

    /** Best nodes are node indices and thresholds lie in [0, antNum]. */
    ghost predicate HintsInRange()
      requires Shape()
      reads bestNode, critical
    {
      forall t :: 0 <= t < taskNum ==> 0 <= bestNode[t] < nodeNum && 0 <= critical[t] <= antNum
    }

    ghost predicate Valid()
      reads time, pheromone, bestNode, critical
    {
      Shape() && TimeSet() && PheromonePositive() && HintsInRange()
    }

    /** A path buffer of antNum x taskNum x nodeNum flags. */
    ghost predicate PathFits(path: array3<int>)
    {
      path.Length0 == antNum && path.Length1 == taskNum && path.Length2 == nodeNum
    }

    /** Sets up the problem with every matrix and array zero, as the
        statically allocated globals start. */
    constructor (lengths: seq<int>, speeds: seq<int>, antNum: nat)
      requires |lengths| > 0 && |speeds| >= 2 && antNum > 0
      requires forall t :: 0 <= t < |lengths| ==> lengths[t] > 0
      requires forall n :: 0 <= n < |speeds| ==> speeds[n] > 0
      ensures Shape() && HintsInRange()
      ensures this.lengths == lengths && this.speeds == speeds && this.antNum == antNum
      ensures forall t :: 0 <= t < taskNum ==> bestNode[t] == 0 && critical[t] == 0
      ensures forall t, n :: 0 <= t < taskNum && 0 <= n < nodeNum ==> time[t, n] == 0.0 && pheromone[t, n] == 0.0
      ensures fresh(time) && fresh(pheromone) && fresh(bestNode) && fresh(critical)
    {
      this.lengths := lengths;
      this.speeds := speeds;
      taskNum := |lengths|;
      nodeNum := |speeds|;
      this.antNum := antNum;
      time := new real[|lengths|, |speeds|]((t, n) => 0.0);
      pheromone := new real[|lengths|, |speeds|]((t, n) => 0.0);
      bestNode := new int[|lengths|](t => 0);
      critical := new int[|lengths|](t => 0);
    }

    /** Fills the duration matrix with length / speed. */
    method InitTimeMatrix()
      requires Shape()
      modifies time
      ensures TimeSet()
      ensures forall t, n :: 0 <= t < taskNum && 0 <= n < nodeNum ==> time[t, n] > 0.0
    {
      for i := 0 to taskNum
        invariant forall t, n :: 0 <= t < i && 0 <= n < nodeNum ==> time[t, n] == Duration(lengths[t], speeds[n])
      {
        for j := 0 to nodeNum
          invariant forall t, n :: 0 <= t < i && 0 <= n < nodeNum ==> time[t, n] == Duration(lengths[t], speeds[n])
          invariant forall n :: 0 <= n < j ==> time[i, n] == Duration(lengths[i], speeds[n])
        {
          time[i, j] := 1.0 * lengths[i] as real / speeds[j] as real;
        }
      }
    }

    /** Sets every pheromone entry to 1. */
    method InitPheromoneMatrix()
      requires Shape()
      modifies pheromone
      ensures forall t, n :: 0 <= t < taskNum && 0 <= n < nodeNum ==> pheromone[t, n] == 1.0
      ensures PheromonePositive()
    {
      for i := 0 to taskNum
        invariant forall t, n :: 0 <= t < i && 0 <= n < nodeNum ==> pheromone[t, n] == 1.0
      {
        for j := 0 to nodeNum
          invariant forall t, n :: 0 <= t < i && 0 <= n < nodeNum ==> pheromone[t, n] == 1.0
          invariant forall n :: 0 <= n < j ==> pheromone[i, n] == 1.0
        {
          pheromone[i, j] := 1.0;
        }
      }
    }

    /** Sets every flag of the path buffer to 0. */
    method ClearPaths(path: array3<int>)
      requires PathFits(path)
      modifies path
      ensures forall a, t, n :: 0 <= a < antNum && 0 <= t < taskNum && 0 <= n < nodeNum ==> path[a, t, n] == 0
    {
      for i := 0 to antNum
        invariant forall a, t, n :: 0 <= a < i && 0 <= t < taskNum && 0 <= n < nodeNum ==> path[a, t, n] == 0
      {
        for j := 0 to taskNum
          invariant forall a, t, n :: 0 <= a < i && 0 <= t < taskNum && 0 <= n < nodeNum ==> path[a, t, n] == 0
          invariant forall t, n :: 0 <= t < j && 0 <= n < nodeNum ==> path[i, t, n] == 0
        {
          for k := 0 to nodeNum
            invariant forall a, t, n :: 0 <= a < i && 0 <= t < taskNum && 0 <= n < nodeNum ==> path[a, t, n] == 0
            invariant forall t, n :: 0 <= t < j && 0 <= n < nodeNum ==> path[i, t, n] == 0
            invariant forall n :: 0 <= n < k ==> path[i, j, n] == 0
          {
            path[i, j, k] := 0;
          }
        }
      }
    }

    /** Clears the path buffer, then lets every ant place every task on the
        node Assign picks; draw(a, t) is the random number ant a would draw
        for task t. Each (ant, task) row ends up one-hot. */
    method BuildPaths(path: array3<int>, draw: (nat, nat) -> nat)
      requires Valid() && PathFits(path)
      modifies path
      ensures forall a, t :: 0 <= a < antNum && 0 <= t < taskNum ==>
        var c := Assign(a, critical[t], bestNode[t], draw(a, t), nodeNum);
        0 <= c < nodeNum && OneHot(AntPath(path, a)[t], c) && CountOnes(AntPath(path, a)[t]) == 1
    {
      ClearPaths(path);
      for antCount := 0 to antNum
        invariant forall a, t, n :: 0 <= a < antNum && 0 <= t < taskNum && 0 <= n < nodeNum ==>
          path[a, t, n] == if a < antCount && n == Assign(a, critical[t], bestNode[t], draw(a, t), nodeNum) then 1 else 0
      {
        for taskCount := 0 to taskNum
          invariant forall a, t, n :: 0 <= a < antNum && 0 <= t < taskNum && 0 <= n < nodeNum ==>
            path[a, t, n] ==
              if (a < antCount || (a == antCount && t < taskCount))
                 && n == Assign(a, critical[t], bestNode[t], draw(a, t), nodeNum)
              then 1 else 0
        {
          var nodeCount := Assign(antCount, critical[taskCount], bestNode[taskCount], draw(antCount, taskCount), nodeNum);
          path[antCount, taskCount, nodeCount] := 1;
        }
      }

      forall a, t | 0 <= a < antNum && 0 <= t < taskNum
        ensures var c := Assign(a, critical[t], bestNode[t], draw(a, t), nodeNum);
          0 <= c < nodeNum && OneHot(AntPath(path, a)[t], c) && CountOnes(AntPath(path, a)[t]) == 1
      {
        var c := Assign(a, critical[t], bestNode[t], draw(a, t), nodeNum);
        OneHotHasSingleOne(AntPath(path, a)[t], c);
      }
    }

    /** Makespan of ant a: over all nodes, the largest summed duration of
        the tasks its path flags on that node, starting the maximum at -1. */
    method AntMakespan(path: array3<int>, a: nat) returns (maxTime: real)
      requires time.Length0 == taskNum && time.Length1 == nodeNum && PathFits(path) && a < antNum
      ensures maxTime == Makespan(Grid(time), AntPath(path, a), nodeNum)
    {
      ghost var g := Grid(time);
      ghost var f := AntPath(path, a);
      maxTime := -1.0;
      for nodeIndex := 0 to nodeNum
        invariant maxTime == MaxLoad(g, f, nodeNum, nodeIndex)
      {
        var load := 0.0;
        for taskIndex := 0 to taskNum
          invariant load == Load(g, f, nodeNum, nodeIndex, taskIndex)
        {
          if path[a, taskIndex, nodeIndex] == 1 {
            load := load + time[taskIndex, nodeIndex];
          }
        }
        if load > maxTime {
          maxTime := load;
        }
      }
    }

    /** Writes each ant's makespan into times. */
    method CalTime(path: array3<int>, times: array<real>)
      requires time.Length0 == taskNum && time.Length1 == nodeNum && PathFits(path) && times.Length == antNum
      modifies times
      ensures forall a :: 0 <= a < antNum ==> times[a] == Makespan(Grid(time), AntPath(path, a), nodeNum)
    {
      for antIndex := 0 to antNum
        invariant forall a :: 0 <= a < antIndex ==> times[a] == Makespan(Grid(time), AntPath(path, a), nodeNum)
      {
        times[antIndex] := AntMakespan(path, antIndex);
      }
    }

    /** Scans pheromone row t once: its first maximum and where it is, its
        sum, and whether every entry equals its left neighbour. */
    method ScanRow(t: nat) returns (maxIndex: nat, maxPheromone: real, sumPheromone: real, isAllSame: bool)
      requires t < pheromone.Length0 && pheromone.Length1 > 0
      ensures (maxPheromone, maxIndex) == FirstMax(Row(pheromone, t))
      ensures sumPheromone == Sum(Row(pheromone, t))
      ensures isAllSame == AllSame(Row(pheromone, t))
    {
      ghost var row := Row(pheromone, t);
      maxPheromone := pheromone[t, 0];
      maxIndex := 0;
      sumPheromone := pheromone[t, 0];
      isAllSame := true;
      assert row[..1][..0] == [];
      for nodeIndex := 1 to pheromone.Length1
        invariant maxPheromone == FirstMax(row[..nodeIndex]).0 && maxIndex == FirstMax(row[..nodeIndex]).1
        invariant sumPheromone == Sum(row[..nodeIndex])
        invariant isAllSame == AllSame(row[..nodeIndex])
      {
        ScanStep(row, nodeIndex);
        if pheromone[t, nodeIndex] > maxPheromone {
          maxPheromone := pheromone[t, nodeIndex];
          maxIndex := nodeIndex;
        }
        if pheromone[t, nodeIndex] != pheromone[t, nodeIndex - 1] {
          isAllSame := false;
        }
        sumPheromone := sumPheromone + pheromone[t, nodeIndex];
      }
      assert row[..pheromone.Length1] == row;
    }

    /** Multiplies every pheromone entry by the decay ratio p. */
    method DecayPheromone()
      requires Shape()
      modifies pheromone
      ensures forall t, n :: 0 <= t < taskNum && 0 <= n < nodeNum ==> pheromone[t, n] == Decay * old(pheromone[t, n])
    {
      for i := 0 to taskNum
        invariant forall t, n :: 0 <= t < taskNum && 0 <= n < nodeNum ==>
          pheromone[t, n] == if t < i then Decay * old(pheromone[t, n]) else old(pheromone[t, n])
      {
        for j := 0 to nodeNum
          invariant forall t, n :: 0 <= t < taskNum && 0 <= n < nodeNum ==>
            pheromone[t, n] == if t < i || (t == i && n < j) then Decay * old(pheromone[t, n]) else old(pheromone[t, n])
        {
          pheromone[i, j] := pheromone[i, j] * Decay;
        }
      }
    }

    /** What one pass over the best ant's edges adds to entry (t, n). */
    ghost function Gain(path: array3<int>, best: nat, t: nat, n: nat): real
      requires Shape() && TimeSet() && PathFits(path) && best < antNum && t < taskNum && n < nodeNum
      reads path, time
    {
      if path[best, t, n] == 1 then 1.0 / time[t, n] else 0.0
    }

    /** One pass of the node loop: adds 1/duration to every edge of row t
        that lies on the best ant's path. */
    method ReinforceRow(path: array3<int>, best: nat, t: nat)
      requires Shape() && TimeSet() && PathFits(path) && best < antNum && t < taskNum
      modifies pheromone
      ensures forall u, n :: 0 <= u < taskNum && 0 <= n < nodeNum ==>
        pheromone[u, n] == old(pheromone[u, n]) + (if u == t then Gain(path, best, u, n) else 0.0)
    {
      for nodeIndex := 0 to nodeNum
        invariant forall u, n :: 0 <= u < taskNum && 0 <= n < nodeNum ==>
          pheromone[u, n] == old(pheromone[u, n]) + (if u == t && n < nodeIndex then Gain(path, best, u, n) else 0.0)
      {
        if path[best, t, nodeIndex] == 1 {
          pheromone[t, nodeIndex] := pheromone[t, nodeIndex] + 1.0 / time[t, nodeIndex];
        }
      }
    }

    /** Adds 1/duration to every edge on the best ant's path, once for each
        ant of the colony: the edge loops sit inside a loop over all ants. */
    method Reinforce(path: array3<int>, best: nat)
      requires Shape() && TimeSet() && PathFits(path) && best < antNum
      modifies pheromone
      ensures forall t, n :: 0 <= t < taskNum && 0 <= n < nodeNum ==>
        pheromone[t, n] == old(pheromone[t, n]) + Repeat(antNum, Gain(path, best, t, n))
    {
      for antIndex := 0 to antNum
        invariant forall t, n :: 0 <= t < taskNum && 0 <= n < nodeNum ==>
          pheromone[t, n] == old(pheromone[t, n]) + Repeat(antIndex, Gain(path, best, t, n))
      {
        for taskIndex := 0 to taskNum
          invariant forall t, n :: 0 <= t < taskNum && 0 <= n < nodeNum ==>
            pheromone[t, n] == old(pheromone[t, n]) +
              Repeat(if t < taskIndex then antIndex + 1 else antIndex, Gain(path, best, t, n))
        {
          ReinforceRow(path, best, taskIndex);
        }
      }
    }

    /** The new best node and exploit threshold of pheromone row t: the
        first maximum, or draw modulo nodeNum - 1 when the row is all equal,
        and floor(antNum * max / sum). */
    method RowHint(t: nat, draw: nat) returns (maxIndex: int, threshold: int)
      requires Shape() && PheromonePositive() && t < taskNum
      ensures maxIndex == Hint(Row(pheromone, t), draw)
      ensures threshold == Threshold(Row(pheromone, t), draw, antNum)
    {
      ghost var row := Row(pheromone, t);
      var maxPheromone, sumPheromone, isAllSame;
      maxIndex, maxPheromone, sumPheromone, isAllSame := ScanRow(t);
      ghost var firstMax := maxIndex;
      if isAllSame {
        maxIndex := draw % (nodeNum - 1);
        maxPheromone := pheromone[t, maxIndex];
      }
      ScanGivesHint(row, draw, antNum, firstMax, sumPheromone, isAllSame, maxIndex);
      threshold := Quota(antNum, maxPheromone, sumPheromone);
    }

    /** Recomputes the best node and exploit threshold of every row. */
    method RecomputeHints(draw: nat -> nat)
      requires Shape() && PheromonePositive()
      modifies bestNode, critical
      ensures HintsInRange()
      ensures forall t :: 0 <= t < taskNum ==>
        bestNode[t] == Hint(Row(pheromone, t), draw(t)) &&
        critical[t] == Threshold(Row(pheromone, t), draw(t), antNum)
    {
      for taskIndex := 0 to taskNum
        invariant forall t :: 0 <= t < taskIndex ==>
          bestNode[t] == Hint(Row(pheromone, t), draw(t)) && critical[t] == Threshold(Row(pheromone, t), draw(t), antNum)
      {
        var maxIndex, threshold := RowHint(taskIndex, draw(taskIndex));
        bestNode[taskIndex] := maxIndex;
        critical[taskIndex] := threshold;
      }
    }

    /** One pheromone update: decay, choice of the best ant, reinforcement of
        its path, then new best nodes and thresholds; draw(t) is the random
        number drawn for row t when all its entries are equal. The source
        indexes the path buffer with the best ant, so some makespan must be
        below MinTimeStart. */
    method UpdatePheromoneMatrix(path: array3<int>, times: array<real>, draw: nat -> nat)
      requires Valid() && PathFits(path) && times.Length == antNum
      requires BestAnt(times[..]) >= 0
      modifies pheromone, bestNode, critical
      ensures Valid()
      ensures forall t, n :: 0 <= t < taskNum && 0 <= n < nodeNum ==>
        pheromone[t, n] == Reinforced(old(pheromone[t, n]), path[BestAnt(times[..]), t, n] == 1, time[t, n], antNum)
      ensures forall t :: 0 <= t < taskNum ==>
        bestNode[t] == Hint(Row(pheromone, t), draw(t)) &&
        critical[t] == Threshold(Row(pheromone, t), draw(t), antNum)
    {
      DecayPheromone();
      label decayed:
      var minIndex := SelectBestAnt(times);
      Reinforce(path, minIndex);
      forall t, n | 0 <= t < taskNum && 0 <= n < nodeNum
        ensures pheromone[t, n] == Reinforced(old(pheromone[t, n]), path[minIndex, t, n] == 1, time[t, n], antNum)
      {
        assert old@decayed(pheromone[t, n]) == Decay * old(pheromone[t, n]);
        ReinforcedIsRepeatedGain(old(pheromone[t, n]), path[minIndex, t, n] == 1, time[t, n], antNum);
      }
      RecomputeHints(draw);
    }

    /** Every makespan of paths built by BuildPaths is positive: the ant's
        node for task 0 carries at least that task's positive duration. */
    lemma BuiltMakespansPositive(path: array3<int>, times: array<real>, draw: (nat, nat) -> nat)
      requires Valid() && PathFits(path) && times.Length == antNum
      requires forall a, t :: 0 <= a < antNum && 0 <= t < taskNum ==>
        var c := Assign(a, critical[t], bestNode[t], draw(a, t), nodeNum);
        0 <= c < nodeNum && OneHot(AntPath(path, a)[t], c)
      requires forall a :: 0 <= a < antNum ==> times[a] == Makespan(Grid(time), AntPath(path, a), nodeNum)
      ensures forall a :: 0 <= a < antNum ==> times[a] > 0.0
    {
      var g := Grid(time);
      assert NonNegative(g) by {
        forall t, n | 0 <= t < |g| && 0 <= n < |g[t]| ensures g[t][n] >= 0.0 {
          assert g[t][n] == time[t, n] == Duration(lengths[t], speeds[n]);
        }
      }
      forall a | 0 <= a < antNum ensures times[a] > 0.0 {
        var c := Assign(a, critical[0], bestNode[0], draw(a, 0), nodeNum);
        assert OneHot(AntPath(path, a)[0], c);
        assert AntPath(path, a)[0][c] == 1;
        assert g[0][c] == Duration(lengths[0], speeds[c]) > 0.0;
        TaskWithinMakespan(g, AntPath(path, a), nodeNum, 0, c);
      }
    }

    /** The state one iteration hands to the next, as a value. */
    ghost function Snap(): (s: Trail)
      reads pheromone, bestNode, critical
      ensures s.pheromone == Grid(pheromone) && s.bestNode == bestNode[..] && s.critical == critical[..]
    {
      Trail(Grid(pheromone), bestNode[..], critical[..])
    }

    /** The duration matrix, as a value, has the colony's shape and
        positive entries. */
    lemma DurationsFitColony()
      requires Shape() && TimeSet()
      ensures |Grid(time)| == taskNum && DurationsFit(Grid(time), nodeNum)
    {
      forall t, n | 0 <= t < taskNum && 0 <= n < nodeNum
        ensures Grid(time)[t][n] > 0.0
      {
        assert time[t, n] == Duration(lengths[t], speeds[n]);
      }
    }

    /** A valid colony's state, as a value, fits the colony. */
    lemma SnapFits()
      requires Valid()
      ensures TrailFits(Snap(), taskNum, nodeNum)
    {
    }

    /** A buffer whose rows are one-hot at Assign's nodes holds BuiltPaths. */
    lemma BufferHoldsBuiltPaths(s: Trail, path: array3<int>, pathDraw: (nat, nat) -> nat)
      requires Shape() && PathFits(path) && TrailFits(s, taskNum, nodeNum)
      requires forall a, t :: 0 <= a < antNum && 0 <= t < taskNum ==>
        OneHot(AntPath(path, a)[t], Assign(a, s.critical[t], s.bestNode[t], pathDraw(a, t), nodeNum))
      ensures forall a :: 0 <= a < antNum ==>
        AntPath(path, a) == BuiltPaths(s.bestNode, s.critical, antNum, nodeNum, pathDraw)[a]
    {
      var paths := BuiltPaths(s.bestNode, s.critical, antNum, nodeNum, pathDraw);
      forall a | 0 <= a < antNum
        ensures AntPath(path, a) == paths[a]
      {
        forall t | 0 <= t < taskNum
          ensures AntPath(path, a)[t] == paths[a][t]
        {
          OneHotIsOneHotRow(AntPath(path, a)[t], Assign(a, s.critical[t], s.bestNode[t], pathDraw(a, t), nodeNum));
        }
      }
    }

    /** Pheromone entries that are the reinforced entries of s along the
        best path make up ReinforcedRows. */
    lemma PheromoneIsReinforcedRows(s: Trail, best: Flags)
      requires Shape() && TimeSet() && TrailFits(s, taskNum, nodeNum)
      requires |best| == taskNum && forall t :: 0 <= t < taskNum ==> |best[t]| == nodeNum
      requires forall t, n :: 0 <= t < taskNum && 0 <= n < nodeNum ==>
        pheromone[t, n] == Reinforced(s.pheromone[t][n], best[t][n] == 1, time[t, n], antNum)
      ensures DurationsFit(Grid(time), nodeNum)
      ensures Grid(pheromone) == ReinforcedRows(Grid(time), s.pheromone, best, nodeNum, antNum)
    {
      DurationsFitColony();
      var rows := ReinforcedRows(Grid(time), s.pheromone, best, nodeNum, antNum);
      forall t | 0 <= t < taskNum
        ensures Grid(pheromone)[t] == rows[t]
      {
      }
    }

    /** Best nodes and thresholds computed from the array rows are
        BestNodes and Thresholds of the pheromone matrix. */
    lemma HintsAreRecomputed(rowDraw: nat -> nat)
      requires Valid()
      requires forall t :: 0 <= t < taskNum ==>
        bestNode[t] == Hint(Row(pheromone, t), rowDraw(t)) &&
        critical[t] == Threshold(Row(pheromone, t), rowDraw(t), antNum)
      ensures TrailFits(Snap(), taskNum, nodeNum)
      ensures bestNode[..] == BestNodes(Grid(pheromone), rowDraw)
      ensures critical[..] == Thresholds(Grid(pheromone), rowDraw, antNum)
    {
    }

    /** The makespans of paths built from the trail's hints are the
        makespans the specification assigns to that trail. */
    lemma BufferMakespans(s: Trail, path: array3<int>, makespans: seq<real>, pathDraw: (nat, nat) -> nat)
      requires Valid() && PathFits(path) && TrailFits(s, taskNum, nodeNum) && |makespans| == antNum
      requires forall a, t :: 0 <= a < antNum && 0 <= t < taskNum ==>
        OneHot(AntPath(path, a)[t], Assign(a, s.critical[t], s.bestNode[t], pathDraw(a, t), nodeNum))
      requires forall a :: 0 <= a < antNum ==> makespans[a] == Makespan(Grid(time), AntPath(path, a), nodeNum)
      ensures DurationsFit(Grid(time), nodeNum)
      ensures makespans == Makespans(Grid(time), s, nodeNum, antNum, pathDraw)
      ensures forall a :: 0 <= a < antNum ==>
        AntPath(path, a) == BuiltPaths(s.bestNode, s.critical, antNum, nodeNum, pathDraw)[a]
    {
      DurationsFitColony();
      BufferHoldsBuiltPaths(s, path, pathDraw);
    }

    /** A reinforcement from the best path followed by recomputed hints
        leaves the trail NextTrail hands on. */
    lemma ReinforcedAdvances(s: Trail, best: Flags, makespans: seq<real>, pathDraw: (nat, nat) -> nat, rowDraw: nat -> nat)
      requires Valid() && TrailFits(s, taskNum, nodeNum) && DurationsFit(Grid(time), nodeNum)
      requires makespans == Makespans(Grid(time), s, nodeNum, antNum, pathDraw) && BestAnt(makespans) >= 0
      requires best == BuiltPaths(s.bestNode, s.critical, antNum, nodeNum, pathDraw)[BestAnt(makespans)]
      requires forall t, n :: 0 <= t < taskNum && 0 <= n < nodeNum ==>
        pheromone[t, n] == Reinforced(s.pheromone[t][n], best[t][n] == 1, time[t, n], antNum)
      requires forall t :: 0 <= t < taskNum ==>
        bestNode[t] == Hint(Row(pheromone, t), rowDraw(t)) &&
        critical[t] == Threshold(Row(pheromone, t), rowDraw(t), antNum)
      ensures Snap() == NextTrail(Grid(time), s, nodeNum, antNum, pathDraw, rowDraw)
    {
      PheromoneIsReinforcedRows(s, best);
      HintsAreRecomputed(rowDraw);
    }

    /** The facts Iteration establishes about the arrays say that it reports
        Makespans and leaves NextTrail of the trail it started from. */
    lemma IterationAdvances(s: Trail, path: array3<int>, makespans: seq<real>, pathDraw: (nat, nat) -> nat, rowDraw: nat -> nat)
      requires Valid() && PathFits(path) && TrailFits(s, taskNum, nodeNum) && |makespans| == antNum
      requires forall a, t :: 0 <= a < antNum && 0 <= t < taskNum ==>
        OneHot(AntPath(path, a)[t], Assign(a, s.critical[t], s.bestNode[t], pathDraw(a, t), nodeNum))
      requires forall a :: 0 <= a < antNum ==> makespans[a] == Makespan(Grid(time), AntPath(path, a), nodeNum)
      requires BestAnt(makespans) < 0 ==> Snap() == s
      requires BestAnt(makespans) >= 0 ==> forall t, n :: 0 <= t < taskNum && 0 <= n < nodeNum ==>
        pheromone[t, n] == Reinforced(s.pheromone[t][n], path[BestAnt(makespans), t, n] == 1, time[t, n], antNum)
      requires BestAnt(makespans) >= 0 ==> forall t :: 0 <= t < taskNum ==>
        bestNode[t] == Hint(Row(pheromone, t), rowDraw(t)) &&
        critical[t] == Threshold(Row(pheromone, t), rowDraw(t), antNum)
      ensures DurationsFit(Grid(time), nodeNum)
      ensures makespans == Makespans(Grid(time), s, nodeNum, antNum, pathDraw)
      ensures Snap() == NextTrail(Grid(time), s, nodeNum, antNum, pathDraw, rowDraw)
    {
      BufferMakespans(s, path, makespans, pathDraw);
      var best := BestAnt(makespans);
      if best >= 0 {
        var paths := BuiltPaths(s.bestNode, s.critical, antNum, nodeNum, pathDraw);
        assert forall t, n :: 0 <= t < taskNum && 0 <= n < nodeNum ==> path[best, t, n] == paths[best][t][n];
        ReinforcedAdvances(s, paths[best], makespans, pathDraw, rowDraw);
      }
    }

    /** One iteration's report: a positive makespan for each ant. */
    ghost predicate Reported(makespans: seq<real>)
    {
      |makespans| == antNum && forall a :: 0 <= a < |makespans| ==> makespans[a] > 0.0
    }

    /** The ants' half of an iteration: every ant builds its path from the
        current hints, then each ant's makespan is recorded. */
    method RunAnts(path: array3<int>, times: array<real>, pathDraw: (nat, nat) -> nat)
      returns (makespans: seq<real>)
      requires Valid() && PathFits(path) && times.Length == antNum
      modifies path, times
      ensures Reported(makespans) && times[..] == makespans
      ensures forall a :: 0 <= a < antNum ==> makespans[a] == Makespan(Grid(time), AntPath(path, a), nodeNum)
      ensures forall a, t :: 0 <= a < antNum && 0 <= t < taskNum ==>
        OneHot(AntPath(path, a)[t], Assign(a, critical[t], bestNode[t], pathDraw(a, t), nodeNum))
    {
      BuildPaths(path, pathDraw);
      CalTime(path, times);
      BuiltMakespansPositive(path, times, pathDraw);
      makespans := times[..];
    }

    /** One iteration: every ant builds a path, every ant's makespan is
        computed, and, when some makespan is below MinTimeStart, the
        pheromone is updated from the best ant's path. The source would
        index the path buffer with -1 otherwise; the model leaves the state
        unchanged and reports it through the returned makespans. */
    method Iteration(path: array3<int>, times: array<real>, pathDraw: (nat, nat) -> nat, rowDraw: nat -> nat)
      returns (makespans: seq<real>)
      requires Valid() && PathFits(path) && times.Length == antNum
      modifies path, times, pheromone, bestNode, critical
      ensures Valid()
      ensures Reported(makespans) && times[..] == makespans
      ensures forall a :: 0 <= a < antNum ==> makespans[a] == Makespan(Grid(time), AntPath(path, a), nodeNum)
      ensures forall a, t :: 0 <= a < antNum && 0 <= t < taskNum ==>
        OneHot(AntPath(path, a)[t], Assign(a, old(critical[t]), old(bestNode[t]), pathDraw(a, t), nodeNum))
      ensures BestAnt(makespans) < 0 ==>
        unchanged(pheromone) && unchanged(bestNode) && unchanged(critical)
      ensures BestAnt(makespans) >= 0 ==> forall t, n :: 0 <= t < taskNum && 0 <= n < nodeNum ==>
        pheromone[t, n] == Reinforced(old(pheromone[t, n]), path[BestAnt(makespans), t, n] == 1, time[t, n], antNum)
      ensures BestAnt(makespans) >= 0 ==> forall t :: 0 <= t < taskNum ==>
        bestNode[t] == Hint(Row(pheromone, t), rowDraw(t)) &&
        critical[t] == Threshold(Row(pheromone, t), rowDraw(t), antNum)
    {
      makespans := RunAnts(path, times, pathDraw);
      if BestAnt(makespans) >= 0 {
        UpdatePheromoneMatrix(path, times, rowDraw);
      }
    }

    /** Every iteration of the history had a best ant and reported a
        positive makespan for each ant. */
    ghost predicate Accepted(history: seq<seq<real>>)
    {
      forall i :: 0 <= i < |history| ==> BestAnt(history[i]) >= 0 && Reported(history[i])
    }

    lemma AcceptedExtends(history: seq<seq<real>>, makespans: seq<real>)
      requires Accepted(history) && BestAnt(makespans) >= 0 && Reported(makespans)
      ensures Accepted(history + [makespans])
    {
      forall i | 0 <= i < |history| + 1
        ensures BestAnt((history + [makespans])[i]) >= 0 && Reported((history + [makespans])[i])
      {
        if i < |history| {
          assert (history + [makespans])[i] == history[i];
        }
      }
    }

    /** A history of accepted iterations followed by a last one that
        reported but had no best ant. */
    lemma StoppedHistory(history: seq<seq<real>>, makespans: seq<real>)
      requires Accepted(history) && Reported(makespans)
      ensures forall i :: 0 <= i < |history| ==> BestAnt((history + [makespans])[i]) >= 0
      ensures forall i :: 0 <= i < |history| + 1 ==> Reported((history + [makespans])[i])
    {
      forall i | 0 <= i < |history| + 1
        ensures Reported((history + [makespans])[i])
        ensures i < |history| ==> BestAnt((history + [makespans])[i]) >= 0
      {
        if i < |history| {
          assert (history + [makespans])[i] == history[i];
        }
      }
    }

    /** One iteration, with its effect stated on values: it reports the
        Makespans of the state it starts from and leaves that state's
        NextTrail. */
    method Advance(path: array3<int>, times: array<real>, pathDraw: (nat, nat) -> nat, rowDraw: nat -> nat)
      returns (makespans: seq<real>)
      requires Valid() && PathFits(path) && times.Length == antNum
      modifies path, times, pheromone, bestNode, critical
      ensures Valid() && Reported(makespans) && unchanged(time)
      ensures times[..] == makespans
      ensures DurationsFit(Grid(time), nodeNum) && TrailFits(old(Snap()), taskNum, nodeNum)
      ensures makespans == Makespans(Grid(time), old(Snap()), nodeNum, antNum, pathDraw)
      ensures Snap() == NextTrail(Grid(time), old(Snap()), nodeNum, antNum, pathDraw, rowDraw)
    {
      SnapFits();
      ghost var before := Snap();
      makespans := Iteration(path, times, pathDraw, rowDraw);
      IterationAdvances(before, path, makespans, pathDraw, rowDraw);
    }

    /** The iteration loop. pathDraw(i, a, t) and rowDraw(i, t) are the
        random numbers of iteration i. The returned history holds each
        iteration's makespans, as the source prints them, and the ghost trace
        the state before and after every iteration: the trace is the Run of
        the iterations from the starting state, and the history its Reports.
        When no makespan of an iteration is below MinTimeStart the source
        would index the path buffer with -1; the model stops after that
        iteration. */
    method Search(iterations: nat, pathDraw: (nat, nat, nat) -> nat, rowDraw: (nat, nat) -> nat)
      returns (history: seq<seq<real>>, ghost trace: seq<Trail>)
      requires Valid()
      modifies pheromone, bestNode, critical
      ensures Valid()
      ensures |history| <= iterations
      ensures |history| < iterations ==> |history| > 0 && BestAnt(history[|history| - 1]) < 0
      ensures forall i :: 0 <= i < |history| - 1 ==> BestAnt(history[i]) >= 0
      ensures forall i :: 0 <= i < |history| ==> Reported(history[i])
      ensures trace == Run(Grid(time), old(Snap()), nodeNum, antNum, pathDraw, rowDraw, |history|)
      ensures history == Reports(Grid(time), nodeNum, antNum, pathDraw, trace)
      ensures trace[|history|] == Snap()
    {
      ghost var dur := Grid(time);
      ghost var start := Snap();
      var path := new int[antNum, taskNum, nodeNum];
      var times := new real[antNum];
      history := [];
      trace := [start];
      for itCount := 0 to iterations
        invariant Valid()
        invariant dur == Grid(time)
        invariant |history| == itCount
        invariant Accepted(history)
        invariant trace == Run(dur, start, nodeNum, antNum, pathDraw, rowDraw, itCount)
        invariant history == Reports(dur, nodeNum, antNum, pathDraw, trace)
        invariant trace[itCount] == Snap()
      {
        var makespans := Advance(path, times, PathDrawsOf(pathDraw, itCount), RowDrawsOf(rowDraw, itCount));
        ghost var after := Snap();
        RunExtends(dur, start, nodeNum, antNum, pathDraw, rowDraw, itCount);
        ReportsExtends(dur, nodeNum, antNum, pathDraw, trace, after);
        if BestAnt(makespans) < 0 {
          StoppedHistory(history, makespans);
          history := history + [makespans];
          trace := trace + [after];
          return;
        }
        AcceptedExtends(history, makespans);
        history := history + [makespans];
        trace := trace + [after];
      }
    }

    /** The whole run: durations, pheromone set to 1, then the search. The
        trace starts from the all-one pheromone matrix and the hints the
        colony held before the run. */
    method Aca(iterations: nat, pathDraw: (nat, nat, nat) -> nat, rowDraw: (nat, nat) -> nat)
      returns (history: seq<seq<real>>, ghost trace: seq<Trail>)
      requires Shape() && HintsInRange()
      modifies time, pheromone, bestNode, critical
      ensures Valid()
      ensures forall t, n :: 0 <= t < taskNum && 0 <= n < nodeNum ==> time[t, n] == Duration(lengths[t], speeds[n])
      ensures |history| <= iterations
      ensures |history| < iterations ==> |history| > 0 && BestAnt(history[|history| - 1]) < 0
      ensures forall i :: 0 <= i < |history| - 1 ==> BestAnt(history[i]) >= 0
      ensures forall i :: 0 <= i < |history| ==> Reported(history[i])
      ensures trace == Run(Grid(time), Trail(seq(taskNum, t => seq(nodeNum, n => 1.0)), old(bestNode[..]), old(critical[..])),
                           nodeNum, antNum, pathDraw, rowDraw, |history|)
      ensures history == Reports(Grid(time), nodeNum, antNum, pathDraw, trace)
      ensures trace[|history|] == Snap()
    {
      InitTimeMatrix();
      InitPheromoneMatrix();
      forall t | 0 <= t < taskNum
        ensures Grid(pheromone)[t] == seq(nodeNum, n => 1.0)
      {
      }
      assert Grid(pheromone) == seq(taskNum, t => seq(nodeNum, n => 1.0));
      history, trace := Search(iterations, pathDraw, rowDraw);
    }
  }
}
