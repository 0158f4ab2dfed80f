/** The nearest-node lookup of LogEnergyAxis (gammapy/spectrum/utils.py).

    The axis keeps `x = log10(energy)` of its nodes; a lookup takes the
    log10 of the query energy and returns the index of the node nearest to
    it in log space. The logarithm is taken outside this model: both the
    axis and the query arrive already in log10 units. */
module EnergyAxis {
  import opened Outcomes

  /** The axis nodes in log10 units; node i sits at pixel i. */
  datatype LogEnergyAxis = LogEnergyAxis(x: seq<real>)

  function Distance(a: real, b: real): (d: real)
    ensures d >= 0.0 && (d == a - b || d == b - a)
  {
    if a >= b then a - b else b - a
  }

  /** Node i is at least as close to t as every other node. */
  ghost predicate IsClosest(x: seq<real>, t: real, i: nat) {
    i < |x| && forall j :: 0 <= j < |x| ==> Distance(x[i], t) <= Distance(x[j], t)
  }

  /** Node i is the first of the closest nodes, which is the one np.argmin
      reports on ties. */
  ghost predicate IsFirstClosest(x: seq<real>, t: real, i: nat) {
    IsClosest(x, t, i) && forall j :: 0 <= j < i ==> Distance(x[i], t) < Distance(x[j], t)
  }

  /** argmin of |x - t|; np.argmin of an empty array raises ValueError. */
  method ClosestPoint(axis: LogEnergyAxis, t: real) returns (r: Result<nat>)
    ensures r.Err? <==> |axis.x| == 0
    ensures r.Err? ==> r.error == ValueError("attempt to get argmin of an empty sequence")
    ensures r.Ok? ==> IsFirstClosest(axis.x, t, r.value)
  {
    var x := axis.x;
    if |x| == 0 {
      return Err(ValueError("attempt to get argmin of an empty sequence"));
    }
    var best := 0;
    var i := 1;
    while i < |x|
      invariant 1 <= i <= |x|
      invariant best < i
      invariant forall j :: 0 <= j < i ==> Distance(x[best], t) <= Distance(x[j], t)
      invariant forall j :: 0 <= j < best ==> Distance(x[best], t) < Distance(x[j], t)
    {
      if Distance(x[i], t) < Distance(x[best], t) {
        best := i;
      }
      i := i + 1;
    }
    return Ok(best);
  }

  /** The first closest node is unique, so the lookup is determined by the
      axis and the query alone. */
  lemma FirstClosestUnique(x: seq<real>, t: real, a: nat, b: nat)
    requires IsFirstClosest(x, t, a) && IsFirstClosest(x, t, b)
    ensures a == b
  {
    var da, db := Distance(x[a], t), Distance(x[b], t);
    assert da <= db && db <= da;
  }

  /** On an axis of strictly increasing nodes, a query at a node's own value
      finds that node. */
  lemma ClosestToNodeIsNode(x: seq<real>, i: nat)
    requires i < |x|
    requires forall p, q :: 0 <= p < q < |x| ==> x[p] < x[q]
    ensures IsFirstClosest(x, x[i], i)
  {
    forall j | 0 <= j < i
      ensures Distance(x[i], x[i]) < Distance(x[j], x[i])
    {
      assert x[j] < x[i];
    }
  }
}
