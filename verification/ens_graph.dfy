/**
 * The pure part of `ensGraphFetch`: the rows of `json.data.domains` returned
 * by the ENS subgraph are filtered to those with a resolved address and a
 * non-empty name, and each is reshaped to `{addr, ens}`. The HTTP request
 * that produces the rows is a parameter of the callers (see `Scraper`).
 */
module EnsGraph {

  import opened Wrappers

  datatype ResolvedAddress = ResolvedAddress(id: string)

  /** One row of `domains`: `name` and `resolvedAddress` may be null. */
  datatype Domain = Domain(name: Option<string>, resolvedAddress: Option<ResolvedAddress>)

  /** `{addr, ens}` as handed back to the scraper. */
  datatype GraphResult = GraphResult(addr: string, ens: string)

  /** `domain.resolvedAddress && domain.name`: both present, and the name not "". */
  predicate Kept(d: Domain) {
    d.resolvedAddress.Some? && d.name.Some? && d.name.value != ""
  }

  /** The shape one kept row takes. */
  function Row(d: Domain): (g: GraphResult)
    requires Kept(d)
    ensures g.ens != ""
  {
    GraphResult(d.resolvedAddress.value.id, d.name.value)
  }

  /** `.filter(...).map(...)` over the rows, in order. */
  function Shape(domains: seq<Domain>): (r: seq<GraphResult>)
    ensures |r| <= |domains|
    ensures forall k :: 0 <= k < |r| ==> r[k].ens != ""
  {
    if |domains| == 0 then []
    else (if Kept(domains[0]) then [Row(domains[0])] else []) + Shape(domains[1..])
  }

  /** Shaping distributes over concatenation: it keeps rows in their input order. */
  lemma {:induction false} ShapeAppend(a: seq<Domain>, b: seq<Domain>)
    ensures Shape(a + b) == Shape(a) + Shape(b)
    decreases |a|
  {
    if |a| == 0 {
      assert a + b == b;
    } else {
      assert (a + b)[1..] == a[1..] + b;
      ShapeAppend(a[1..], b);
    }
  }

  /** A result is present exactly when some kept row has that shape. */
  lemma {:induction false} ShapeMembers(domains: seq<Domain>, g: GraphResult)
    ensures g in Shape(domains) <==> exists d :: d in domains && Kept(d) && Row(d) == g
    decreases |domains|
  {
    if |domains| > 0 {
      ShapeMembers(domains[1..], g);
      assert forall d :: d in domains <==> d == domains[0] || d in domains[1..];
    }
  }

  /** The number of results is the number of kept rows. */
  function CountKept(domains: seq<Domain>): (n: nat)
  {
    if |domains| == 0 then 0 else (if Kept(domains[0]) then 1 else 0) + CountKept(domains[1..])
  }

  lemma {:induction false} ShapeLength(domains: seq<Domain>)
    ensures |Shape(domains)| == CountKept(domains)
    decreases |domains|
  {
    if |domains| > 0 {
      ShapeLength(domains[1..]);
    }
  }
}
