// A client of the join-point protocol: CodeStubAssembler::SmiMin
// (v8/src/compiler/code-stub-assembler.cc:188-201) declares one tagged
// variable, binds it to `a` on one branch and to `b` on the other, and joins
// the branches at a label with no pre-declared merge variables.

module Clients {
  import opened Nodes
  import opened JoinPoints

  /** The join of SmiMin: two edges reach the label, the variable carrying
    * `a` on the first and `b` on the second.  The bind creates one phi with
    * inputs [a, b] when they differ and rebinds the variable to it; when
    * they are the same node no phi is created and the variable keeps it. */
  lemma {:induction false} SmiMinJoin(a: Node, b: Node, graph: seq<PhiNode>)
    requires a != Null && b != Null
    ensures var first := MergeEdge(Initial({}), [a], graph);
            && first.Success?
            && var second := MergeEdge(first.value.point, [b], first.value.graph);
            && second.Success?
            && second.value.graph == graph
            && var bound := BindLabel(second.value.point, [b], [Tagged], graph);
            && bound.Success?
            && (a != b ==>
                  bound.value.values == [Phi(|graph|)] && bound.value.graph == graph + [PhiNode(Tagged, [a, b])])
            && (a == b ==> bound.value.values == [a] && bound.value.graph == graph)
  {
    var l0 := Initial({});
    var first := MergeEdge(l0, [a], graph);
    assert l0.phis == map[];
    assert Incremented(l0) == LabelState(false, 1, map[], map[]);
    var t0 := JoinState(Incremented(l0), graph);
    assert first == MergeVariable(t0, 0, a);
    assert Log(t0.point, 0) + [a] == [a];
    assert MergeVariable(t0, 0, a) == Success(JoinState(t0.point.(merges := map[0 := [a]]), graph));
    assert MergePrefix(JoinState(Incremented(l0), graph), [a], 0) == Success(JoinState(Incremented(l0), graph));
    var l1 := LabelState(false, 1, map[0 := [a]], map[]);
    assert first == Success(JoinState(l1, graph));
    var second := MergeEdge(l1, [b], graph);
    var t1 := JoinState(Incremented(l1), graph);
    assert second == MergeVariable(t1, 0, b);
    assert Log(t1.point, 0) + [b] == [a, b];
    assert t1.point.merges[0 := [a, b]] == map[0 := [a, b]];
    assert MergeVariable(t1, 0, b) == Success(JoinState(t1.point.(merges := map[0 := [a, b]]), graph));
    assert MergePrefix(JoinState(Incremented(l1), graph), [b], 0) == Success(JoinState(Incremented(l1), graph));
    var l2 := LabelState(false, 2, map[0 := [a, b]], map[]);
    assert second == Success(JoinState(l2, graph));
    var marked := MarkDivergent(l2, 1);
    var s := JoinState(marked, graph);
    assert CreatePhis(s, [Tagged], 0) == Success(s);
    if a != b {
      assert Diverges([a, b]) by { assert [a, b][1] != [a, b][0]; }
      assert marked.phis == map[0 := Null];
      var t := JoinState(marked.(phis := map[0 := Phi(|graph|)]), graph + [PhiNode(Tagged, [a, b])]);
      assert PhiReady(marked, 0) && marked.merges[0] == [a, b];
      assert marked.phis[0 := Phi(|graph|)] == map[0 := Phi(|graph|)];
      assert CreatePhis(s, [Tagged], 1) == Success(t);
      assert Rebind(t.point, 1) == [Phi(|graph|)];
    } else {
      assert !Diverges([a, b]);
      assert marked.phis == map[];
      assert CreatePhis(s, [Tagged], 1) == Success(s);
      assert Rebind(marked, 1) == [a];
    }
  }
}
