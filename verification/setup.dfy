/** Building the domain store and the arc list before search starts. */
module Setup {
  import opened Csp

  /** Every variable gets its own copy of the template domain; one entry per
      loop iteration, later variables overwriting nothing but their own key. */
  function AssignDomains(variables: seq<Var>, template: seq<Val>): (dom: Domains)
    ensures dom.Keys == set v | v in variables
    ensures forall v :: v in dom ==> dom[v] == template
  {
    if variables == [] then map[]
    else
      var n := |variables| - 1;
      AssignDomains(variables[..n], template)[variables[n] := template]
  }

  /** Each constraint is emitted as an arc, followed by its reversal. */
  function GenerateArcs(constraints: seq<Constraint>): (arcs: seq<Arc>)
    ensures |arcs| == 2 * |constraints|
    ensures forall i :: 0 <= i < |constraints| ==>
      arcs[2 * i] == constraints[i] && arcs[2 * i + 1] == constraints[i].Reversed()
    ensures forall a :: a in arcs ==> a in constraints || a.Reversed() in constraints
  {
    if constraints == [] then []
    else
      var n := |constraints| - 1;
      var c := constraints[n];
      assert c.Reversed().Reversed() == c;
      assert forall a :: a in constraints[..n] ==> a in constraints;
      GenerateArcs(constraints[..n]) + [c, c.Reversed()]
  }

  /** Every constraint occurs among the arcs in both orientations. */
  lemma GenerateArcsBothWays(constraints: seq<Constraint>)
    ensures forall c :: c in constraints ==>
      c in GenerateArcs(constraints) && c.Reversed() in GenerateArcs(constraints)
  {
    var arcs := GenerateArcs(constraints);
    forall c | c in constraints
      ensures c in arcs && c.Reversed() in arcs
    {
      var i :| 0 <= i < |constraints| && constraints[i] == c;
      assert arcs[2 * i] == c;
      assert arcs[2 * i + 1] == c.Reversed();
    }
  }

  /** The arc list is closed under reversal, so pruning works in both directions. */
  lemma GenerateArcsSymmetric(constraints: seq<Constraint>)
    ensures forall a :: a in GenerateArcs(constraints) ==> a.Reversed() in GenerateArcs(constraints)
  {
    GenerateArcsBothWays(constraints);
    forall a | a in GenerateArcs(constraints)
      ensures a.Reversed() in GenerateArcs(constraints)
    {
      if a !in constraints {
        assert a.Reversed().Reversed() == a;
      }
    }
  }
}
