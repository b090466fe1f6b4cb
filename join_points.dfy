// The join-point protocol of CodeStubAssembler::Label
// (v8/src/compiler/code-stub-assembler.cc:863-977) as functions on values:
// what one merge edge (Label::MergeVariables) and the bind (Label::Bind) do
// to a label's bookkeeping, to the variables and to the phis of the graph.
// Variables are numbered by their position in the assembler-wide registry
// (`variables_`); `values[v]` is the current value of variable v.

module JoinPoints {
  import opened Nodes

  /** The bookkeeping fields of one label. */
  datatype LabelState = LabelState(
    bound: bool,                  // bound_
    mergeCount: nat,              // merge_count_: edges merged so far
    merges: map<nat, seq<Node>>,  // variable_merges_: a variable's value on each edge it was bound on
    phis: map<nat, Node>)         // variable_phis_: Null until Bind has created the phi

  /** A label together with the phis of the graph it may append inputs to. */
  datatype JoinState = JoinState(point: LabelState, graph: seq<PhiNode>)

  /** What Label::Bind leaves behind: the label, the new values of all
      variables and the graph with the new phis. */
  datatype BindResult = BindResult(point: LabelState, values: seq<Node>, graph: seq<PhiNode>)

  /** The label right after construction: `merged` are the variables the
      author declares as merged in advance. */
  function Initial(merged: set<nat>): LabelState
  {
    LabelState(false, 0, map[], map v | v in merged :: Null)
  }

  /** Declaring one more variable as merged adds one phi slot. */
  lemma InitialInsert(merged: set<nat>, v: nat)
    ensures Initial(merged + {v}) == Initial(merged).(phis := Initial(merged).phis[v := Null])
  {
  }

  /** A new label over registered variables is well formed. */
  lemma InitialWellFormed(merged: set<nat>, n: nat, graphLen: nat)
    requires forall v :: v in merged ==> v < n
    ensures WellFormed(Initial(merged), n, graphLen)
  {
  }

  /** The values variable v has carried into the label (empty if none). */
  function Log(l: LabelState, v: nat): seq<Node>
  {
    if v in l.merges then l.merges[v] else []
  }

  predicate Uniform(log: seq<Node>, node: Node)
  {
    forall i :: 0 <= i < |log| ==> log[i] == node
  }

  /** The log holds two distinct values. */
  predicate Diverges(log: seq<Node>)
  {
    exists i :: 0 <= i < |log| && log[i] != log[0]
  }

  /** Every phi entry of a bound label names one of the graphLen phis. */
  predicate PhisLive(l: LabelState, graphLen: nat)
  {
    l.bound ==> forall v :: v in l.phis ==> l.phis[v].Phi? && l.phis[v].index < graphLen
  }

  predicate Live(s: JoinState)
  {
    PhisLive(s.point, |s.graph|)
  }

  predicate PhisInjective(l: LabelState)
  {
    l.bound ==>
      forall v, w :: v in l.phis && w in l.phis && v != w ==> l.phis[v] != l.phis[w]
  }

  /** The invariant of a label in a session with n variables and a graph of
      graphLen phis. */
  predicate WellFormed(l: LabelState, n: nat, graphLen: nat)
  {
    // every log has one entry per edge at most, and no null entry
    && (forall v :: v in l.merges ==>
          v < n && l.merges[v] != [] && |l.merges[v]| <= l.mergeCount && Null !in l.merges[v])
    // a merged variable has had a value on every edge so far
    && (forall v :: v in l.phis ==> v < n && |Log(l, v)| == l.mergeCount)
    // the phis exist exactly once the label is bound
    && (forall v :: v in l.phis ==> (l.bound <==> l.phis[v] != Null))
    && PhisLive(l, graphLen)
    && PhisInjective(l)
    // after bind, a variable without a phi has never diverged
    && (l.bound ==> forall v :: v in l.merges && v !in l.phis ==> !Diverges(l.merges[v]))
  }

  /** Each phi of a bound label has the variable's log as inputs. */
  predicate PhisMatch(l: LabelState, graph: seq<PhiNode>)
  {
    l.bound ==>
      forall v :: v in l.phis ==>
        l.phis[v].Phi? && l.phis[v].index < |graph| && graph[l.phis[v].index].inputs == Log(l, v)
  }

  /** Each phi of a bound label is a graph entry that `owners` assigns to
      the label named k: every phi belongs to the one label that created it. */
  predicate OwnsPhis<K(==)>(l: LabelState, owners: seq<K>, k: K)
  {
    l.bound ==>
      forall v :: v in l.phis ==>
        l.phis[v].Phi? && l.phis[v].index < |owners| && owners[l.phis[v].index] == k
  }

  // ---------------------------------------------------------------------
  // Label::MergeVariables

  /** v's log after an edge on which v holds `node` (unbound: no entry). */
  function EdgeLog(l: LabelState, v: nat, node: Node): seq<Node>
  {
    if node == Null then Log(l, v) else Log(l, v) + [node]
  }

  /** `count` in the source: the length of v's log after the edge, or 0
      when v is unbound on it. */
  function EdgeCount(l: LabelState, v: nat, node: Node): nat
  {
    if node == Null then 0 else |Log(l, v)| + 1
  }

  /** The assertions of MergeVariables for variable v fail; `l` already
      counts the new edge. */
  predicate MergeRejects(l: LabelState, v: nat, node: Node)
  {
    // a merged variable without a value on this edge
    || (v in l.phis && EdgeCount(l, v, node) != l.mergeCount)
    // a new value, after the bind, for a variable that has no phi
    || (l.bound && v !in l.phis && !Uniform(EdgeLog(l, v, node), node))
  }

  function AppendInput(p: PhiNode, node: Node): PhiNode
  {
    p.(inputs := p.inputs + [node])
  }

  /** One iteration of the loop of MergeVariables, for variable v. */
  function MergeVariable(s: JoinState, v: nat, node: Node): (r: Result<JoinState>)
    requires Live(s)
    ensures r.Success? ==> Live(r.value) && |r.value.graph| == |s.graph|
    ensures r.Success? ==>
      r.value.point.(merges := s.point.merges) == s.point
  {
    var l := s.point;
    var merges := if node == Null then l.merges else l.merges[v := Log(l, v) + [node]];
    if v in l.phis && EdgeCount(l, v, node) != l.mergeCount then
      Failure(InconsistentMerge(v))
    else if l.bound && v in l.phis then
      var k := l.phis[v].index;
      Success(JoinState(l.(merges := merges), s.graph[k := AppendInput(s.graph[k], node)]))
    else if l.bound && !Uniform(EdgeLog(l, v, node), node) then
      Failure(InconsistentMerge(v))
    else
      Success(JoinState(l.(merges := merges), s.graph))
  }

  /** The loop of MergeVariables over the first k variables. */
  function MergePrefix(s: JoinState, values: seq<Node>, k: nat): (r: Result<JoinState>)
    requires k <= |values| && Live(s)
    ensures r.Success? ==> Live(r.value) && |r.value.graph| == |s.graph|
    ensures r.Success? ==> r.value.point.(merges := s.point.merges) == s.point
    decreases k
  {
    if k == 0 then Success(s)
    else
      match MergePrefix(s, values, k - 1)
      case Failure(e) => Failure(e)
      case Success(t) => MergeVariable(t, k - 1, values[k - 1])
  }

  function Incremented(l: LabelState): LabelState
  {
    l.(mergeCount := l.mergeCount + 1)
  }

  /** Label::MergeVariables: count the edge, then log every variable. */
  function MergeEdge(l: LabelState, values: seq<Node>, graph: seq<PhiNode>): Result<JoinState>
    requires Live(JoinState(l, graph))
  {
    MergePrefix(JoinState(Incremented(l), graph), values, |values|)
  }

  /** Graph entry j is the phi of one of the first k variables. */
  predicate PhiOfSome(l: LabelState, j: nat, k: nat)
  {
    l.bound && exists v :: 0 <= v < k && v in l.phis && l.phis[v] == Phi(j)
  }

  /** One step of the loop, spelled out. */
  lemma MergeVariableEffect(t: JoinState, v: nat, node: Node)
    requires Live(t)
    ensures MergeVariable(t, v, node).Failure? <==> MergeRejects(t.point, v, node)
    ensures MergeVariable(t, v, node).Failure? ==> MergeVariable(t, v, node).error == InconsistentMerge(v)
    ensures MergeVariable(t, v, node).Success? ==>
      var r := MergeVariable(t, v, node).value;
      && (forall w: nat :: Log(r.point, w) == if w == v then EdgeLog(t.point, v, node) else Log(t.point, w))
      && (forall w: nat :: w in r.point.merges <==> w in t.point.merges || (w == v && node != Null))
      && r.graph == if t.point.bound && v in t.point.phis
                    then t.graph[t.point.phis[v].index := AppendInput(t.graph[t.point.phis[v].index], node)]
                    else t.graph
  {
  }

  lemma {:induction false} MergePrefixOutcome(s: JoinState, values: seq<Node>, k: nat)
    requires k <= |values| && Live(s)
    ensures MergePrefix(s, values, k).Success? <==>
      forall v :: 0 <= v < k ==> !MergeRejects(s.point, v, values[v])
    ensures MergePrefix(s, values, k).Failure? ==>
      exists v :: 0 <= v < k && MergeRejects(s.point, v, values[v]) &&
        MergePrefix(s, values, k).error == InconsistentMerge(v) &&
        forall w :: 0 <= w < v ==> !MergeRejects(s.point, w, values[w])
  {
    if k > 0 {
      MergePrefixOutcome(s, values, k - 1);
      match MergePrefix(s, values, k - 1)
      case Failure(e) =>
      case Success(t) =>
        MergePrefixLogs(s, values, k - 1);
        MergeVariableEffect(t, k - 1, values[k - 1]);
        assert MergeRejects(t.point, k - 1, values[k - 1]) == MergeRejects(s.point, k - 1, values[k - 1]) by {
          assert Log(t.point, k - 1) == Log(s.point, k - 1);
        }
    }
  }

  lemma {:induction false} MergePrefixLogs(s: JoinState, values: seq<Node>, k: nat)
    requires k <= |values| && Live(s)
    requires MergePrefix(s, values, k).Success?
    ensures forall v: nat ::
      (Log(MergePrefix(s, values, k).value.point, v) ==
       if v < k then EdgeLog(s.point, v, values[v]) else Log(s.point, v))
    ensures forall v: nat ::
      (v in MergePrefix(s, values, k).value.point.merges <==>
       v in s.point.merges || (v < k && values[v] != Null))
  {
    if k > 0 {
      var t := MergePrefix(s, values, k - 1).value;
      MergePrefixLogs(s, values, k - 1);
      MergeVariableEffect(t, k - 1, values[k - 1]);
    }
  }

  lemma {:induction false} MergePrefixGraph(s: JoinState, values: seq<Node>, k: nat)
    requires k <= |values| && Live(s) && PhisInjective(s.point)
    requires MergePrefix(s, values, k).Success?
    ensures var t := MergePrefix(s, values, k).value;
      && (forall v :: 0 <= v < k && s.point.bound && v in s.point.phis ==>
            t.graph[s.point.phis[v].index] == AppendInput(s.graph[s.point.phis[v].index], values[v]))
      && (forall j :: 0 <= j < |s.graph| && !PhiOfSome(s.point, j, k) ==> t.graph[j] == s.graph[j])
  {
    if k > 0 {
      var v := k - 1;
      var t := MergePrefix(s, values, k - 1).value;
      MergePrefixGraph(s, values, k - 1);
      MergeVariableEffect(t, v, values[v]);
      var r := MergePrefix(s, values, k).value;
      if s.point.bound && v in s.point.phis {
        var j := s.point.phis[v].index;
        assert !PhiOfSome(s.point, j, k - 1);
      }
      forall j | 0 <= j < |s.graph| && !PhiOfSome(s.point, j, k)
        ensures r.graph[j] == s.graph[j]
      {
        assert !PhiOfSome(s.point, j, k - 1);
        if s.point.bound && v in s.point.phis {
          assert s.point.phis[v] != Phi(j);
        }
      }
    }
  }

  // Properties of one merge edge

  /** MergeVariables counts the edge once, appends each bound variable's
      value to its log (an unbound variable gets no entry) and is rejected
      exactly when some variable fails one of its assertions. */
  lemma MergeEdgeLogs(l: LabelState, values: seq<Node>, graph: seq<PhiNode>)
    requires WellFormed(l, |values|, |graph|)
    ensures MergeEdge(l, values, graph).Success? <==>
      forall v :: 0 <= v < |values| ==> !MergeRejects(Incremented(l), v, values[v])
    ensures MergeEdge(l, values, graph).Failure? ==>
      exists v :: 0 <= v < |values| && MergeEdge(l, values, graph).error == InconsistentMerge(v)
    ensures MergeEdge(l, values, graph).Success? ==>
      var m := MergeEdge(l, values, graph).value.point;
      && m.mergeCount == l.mergeCount + 1 && m.bound == l.bound && m.phis == l.phis
      && (forall v :: 0 <= v < |values| ==>
            Log(m, v) == Log(l, v) + (if values[v] == Null then [] else [values[v]]))
      && (forall v :: v in m.merges ==> v < |values| && |m.merges[v]| <= m.mergeCount)
  {
    var s := JoinState(Incremented(l), graph);
    MergePrefixOutcome(s, values, |values|);
    if MergeEdge(l, values, graph).Success? {
      MergePrefixLogs(s, values, |values|);
      var m := MergeEdge(l, values, graph).value.point;
      forall v | v in m.merges ensures v < |values| && |m.merges[v]| <= m.mergeCount {
        assert Log(m, v) == m.merges[v];
      }
    }
  }

  /** A variable declared as merged (or already given a phi) that is
      unbound on an edge makes that edge fail. */
  lemma MissingMergeValueRejected(l: LabelState, values: seq<Node>, graph: seq<PhiNode>, v: nat)
    requires WellFormed(l, |values|, |graph|)
    requires v < |values| && v in l.phis && values[v] == Null
    ensures MergeEdge(l, values, graph).Failure?
  {
    MergePrefixOutcome(JoinState(Incremented(l), graph), values, |values|);
    assert MergeRejects(Incremented(l), v, values[v]);
  }

  /** After the bind, an edge may carry a new value for a variable without
      a phi only if it equals every value logged for it so far. */
  lemma LateDivergenceRejected(l: LabelState, values: seq<Node>, graph: seq<PhiNode>, v: nat)
    requires WellFormed(l, |values|, |graph|)
    requires l.bound && v < |values| && v !in l.phis && v in l.merges
    requires values[v] != l.merges[v][0]
    ensures MergeEdge(l, values, graph).Failure?
  {
    MergePrefixOutcome(JoinState(Incremented(l), graph), values, |values|);
    var e := EdgeLog(Incremented(l), v, values[v]);
    assert e[0] == l.merges[v][0];
    assert MergeRejects(Incremented(l), v, values[v]);
  }

  /** A merge edge keeps the label well formed. */
  lemma MergeEdgeWellFormed(l: LabelState, values: seq<Node>, graph: seq<PhiNode>)
    requires WellFormed(l, |values|, |graph|)
    requires MergeEdge(l, values, graph).Success?
    ensures WellFormed(MergeEdge(l, values, graph).value.point, |values|, |graph|)
  {
    var s := JoinState(Incremented(l), graph);
    MergePrefixOutcome(s, values, |values|);
    MergePrefixLogs(s, values, |values|);
    var m := MergeEdge(l, values, graph).value.point;
    forall v | v in m.merges
      ensures v < |values| && m.merges[v] != [] && |m.merges[v]| <= m.mergeCount && Null !in m.merges[v]
    {
      assert Log(m, v) == m.merges[v];
      assert Log(m, v) == EdgeLog(Incremented(l), v, values[v]);
      if v in l.merges {
        assert Log(l, v) == l.merges[v];
      }
    }
    forall v | v in m.phis
      ensures v < |values| && |Log(m, v)| == m.mergeCount
    {
      assert !MergeRejects(Incremented(l), v, values[v]);
    }
    if l.bound {
      forall v | v in m.merges && v !in m.phis
        ensures !Diverges(m.merges[v])
      {
        assert !MergeRejects(Incremented(l), v, values[v]);
        assert Log(m, v) == EdgeLog(Incremented(l), v, values[v]);
      }
    }
  }

  /** On a bound label, a merge edge appends the edge's value to each of the
      label's phis, so that every phi keeps one input per edge, and leaves
      every other phi of the graph alone. */
  lemma MergeEdgeAppendsPhiInputs(l: LabelState, values: seq<Node>, graph: seq<PhiNode>)
    requires WellFormed(l, |values|, |graph|)
    requires MergeEdge(l, values, graph).Success?
    ensures var r := MergeEdge(l, values, graph).value;
      && |r.graph| == |graph|
      && (forall v :: 0 <= v < |values| && l.bound && v in l.phis ==>
            r.graph[l.phis[v].index] == AppendInput(graph[l.phis[v].index], values[v]))
      && (forall j :: 0 <= j < |graph| && !PhiOfSome(l, j, |values|) ==> r.graph[j] == graph[j])
      && (PhisMatch(l, graph) ==> PhisMatch(r.point, r.graph))
  {
    var s := JoinState(Incremented(l), graph);
    var r := MergeEdge(l, values, graph).value;
    MergePrefixOutcome(s, values, |values|);
    MergePrefixGraph(s, values, |values|);
    MergePrefixLogs(s, values, |values|);
    var m := r.point;
    if l.bound && PhisMatch(l, graph) {
      forall v | v in m.phis
        ensures r.graph[m.phis[v].index].inputs == Log(m, v)
      {
        assert !MergeRejects(Incremented(l), v, values[v]);
      }
    }
  }

  /** An edge into the label named k changes no graph entry that belongs
      to another label. */
  lemma MergeEdgeKeepsOthers<K>(l: LabelState, values: seq<Node>, graph: seq<PhiNode>,
                                    owners: seq<K>, k: K)
    requires WellFormed(l, |values|, |graph|) && OwnsPhis(l, owners, k)
    requires MergeEdge(l, values, graph).Success?
    ensures |MergeEdge(l, values, graph).value.graph| == |graph|
    ensures forall j :: 0 <= j < |graph| && j < |owners| && owners[j] != k ==>
      MergeEdge(l, values, graph).value.graph[j] == graph[j]
  {
    MergeEdgeAppendsPhiInputs(l, values, graph);
    forall j | 0 <= j < |graph| && j < |owners| && owners[j] != k
      ensures !PhiOfSome(l, j, |values|)
    {
      forall v | l.bound && v in l.phis
        ensures l.phis[v] != Phi(j)
      {
        assert owners[l.phis[v].index] == k;
      }
    }
  }

  /** So an edge into one label keeps every other label's phis equal to
      that label's logs. */
  lemma MergeEdgeKeepsOtherLabel<K>(l: LabelState, values: seq<Node>, graph: seq<PhiNode>,
                                        owners: seq<K>, k: K, m: LabelState, km: K)
    requires WellFormed(l, |values|, |graph|) && OwnsPhis(l, owners, k)
    requires MergeEdge(l, values, graph).Success?
    requires PhisMatch(m, graph) && OwnsPhis(m, owners, km) && km != k
    ensures PhisMatch(m, MergeEdge(l, values, graph).value.graph)
  {
    MergeEdgeKeepsOthers(l, values, graph, owners, k);
  }

  // ---------------------------------------------------------------------
  // Label::Bind

  /** The variables that get a phi: those declared as merged, and those
      whose log holds two distinct values. */
  function Marked(l: LabelState, n: nat): set<nat>
  {
    l.phis.Keys + set v: nat | v < n && v in l.merges && Diverges(l.merges[v])
  }

  /** The first loop of Bind: mark every diverging variable for a phi. */
  function MarkDivergent(l: LabelState, n: nat): LabelState
  {
    l.(phis := l.phis + map v: nat | v < n && v in l.merges && Diverges(l.merges[v]) :: Null)
  }

  /** v has been bound on every edge merged so far. */
  predicate PhiReady(l: LabelState, v: nat)
  {
    v in l.merges && |l.merges[v]| == l.mergeCount
  }

  /** The second loop of Bind, over the first k variables: each marked
      variable must be ready, and gets a fresh phi whose inputs are its log. */
  function CreatePhis(s: JoinState, reps: seq<MachineRepresentation>, k: nat): Result<JoinState>
    requires k <= |reps|
    decreases k
  {
    if k == 0 then Success(s)
    else
      match CreatePhis(s, reps, k - 1)
      case Failure(e) => Failure(e)
      case Success(t) =>
        var v := k - 1;
        if v !in t.point.phis then Success(t)
        else if PhiReady(t.point, v) then
          Success(JoinState(t.point.(phis := t.point.phis[v := Phi(|t.graph|)]),
                            t.graph + [PhiNode(reps[v], t.point.merges[v])]))
        else Failure(InconsistentMerge(v))
  }

  /** The third loop of Bind: v's value after the bind. */
  function NewValue(l: LabelState, v: nat): Node
  {
    if v in l.phis then l.phis[v]
    else if PhiReady(l, v) && l.merges[v] != [] then l.merges[v][|l.merges[v]| - 1]
    else Null
  }

  function Rebind(l: LabelState, n: nat): seq<Node>
  {
    seq(n, v requires 0 <= v < n => NewValue(l, v))
  }

  /** Label::Bind, in a session whose variables hold `values` and are typed
      with `reps`. */
  function BindLabel(l: LabelState, values: seq<Node>, reps: seq<MachineRepresentation>,
                     graph: seq<PhiNode>): Result<BindResult>
    requires |reps| == |values|
  {
    if l.bound then Failure(DoubleBind)
    else
      match CreatePhis(JoinState(MarkDivergent(l, |values|), graph), reps, |values|)
      case Failure(e) => Failure(e)
      case Success(t) => Success(BindResult(t.point.(bound := true), Rebind(t.point, |values|), t.graph))
  }

  lemma {:induction false} CreatePhisOutcome(s: JoinState, reps: seq<MachineRepresentation>, k: nat)
    requires k <= |reps|
    ensures CreatePhis(s, reps, k).Success? <==>
      forall v :: 0 <= v < k && v in s.point.phis ==> PhiReady(s.point, v)
    ensures CreatePhis(s, reps, k).Failure? ==>
      exists v :: 0 <= v < k && v in s.point.phis && !PhiReady(s.point, v) &&
        CreatePhis(s, reps, k).error == InconsistentMerge(v)
  {
    if k > 0 {
      CreatePhisOutcome(s, reps, k - 1);
      match CreatePhis(s, reps, k - 1)
      case Failure(e) =>
      case Success(t) =>
        CreatePhisResult(s, reps, k - 1);
        assert PhiReady(t.point, k - 1) == PhiReady(s.point, k - 1);
    }
  }

  lemma {:induction false} CreatePhisResult(s: JoinState, reps: seq<MachineRepresentation>, k: nat)
    requires k <= |reps|
    requires CreatePhis(s, reps, k).Success?
    ensures var t := CreatePhis(s, reps, k).value;
      && t.point == s.point.(phis := t.point.phis)
      && t.point.phis.Keys == s.point.phis.Keys
      && (forall v :: v in s.point.phis && k <= v ==> t.point.phis[v] == s.point.phis[v])
      && |s.graph| <= |t.graph|
      && (forall j :: 0 <= j < |s.graph| ==> t.graph[j] == s.graph[j])
      && (forall v :: v in s.point.phis && v < k ==>
            && t.point.phis[v].Phi?
            && |s.graph| <= t.point.phis[v].index < |t.graph|
            && v in s.point.merges
            && t.graph[t.point.phis[v].index] == PhiNode(reps[v], s.point.merges[v]))
      && (forall v, w :: v in s.point.phis && w in s.point.phis && v < k && w < k && v != w ==>
            t.point.phis[v] != t.point.phis[w])
  {
    CreatePhisFrame(s, reps, k);
    CreatePhisFresh(s, reps, k);
    CreatePhisDistinct(s, reps, k);
  }

  /** What the phi-creating loop leaves alone: the rest of the label, the
      phis of the variables it has not reached, and the existing graph. */
  lemma {:induction false} CreatePhisFrame(s: JoinState, reps: seq<MachineRepresentation>, k: nat)
    requires k <= |reps|
    requires CreatePhis(s, reps, k).Success?
    ensures var t := CreatePhis(s, reps, k).value;
      && t.point == s.point.(phis := t.point.phis)
      && t.point.phis.Keys == s.point.phis.Keys
      && (forall v :: v in s.point.phis && k <= v ==> t.point.phis[v] == s.point.phis[v])
      && |s.graph| <= |t.graph|
      && (forall j :: 0 <= j < |s.graph| ==> t.graph[j] == s.graph[j])
  {
    if k > 0 {
      CreatePhisFrame(s, reps, k - 1);
    }
  }

  /** Each marked variable the loop has reached has a fresh phi whose
      inputs are its log. */
  lemma CreatePhisFresh(s: JoinState, reps: seq<MachineRepresentation>, k: nat)
    requires k <= |reps|
    requires CreatePhis(s, reps, k).Success?
    ensures var t := CreatePhis(s, reps, k).value;
      && t.point.phis.Keys == s.point.phis.Keys
      && (forall v :: v in s.point.phis && v < k ==>
            && t.point.phis[v].Phi?
            && |s.graph| <= t.point.phis[v].index < |t.graph|
            && v in s.point.merges
            && t.graph[t.point.phis[v].index] == PhiNode(reps[v], s.point.merges[v]))
  {
    CreatePhisFrame(s, reps, k);
    forall v | v in s.point.phis && v < k
      ensures var t := CreatePhis(s, reps, k).value;
        && t.point.phis[v].Phi?
        && |s.graph| <= t.point.phis[v].index < |t.graph|
        && v in s.point.merges
        && t.graph[t.point.phis[v].index] == PhiNode(reps[v], s.point.merges[v])
    {
      CreatePhisFreshAt(s, reps, k, v);
    }
  }

  /** The same, for one variable v. */
  lemma {:induction false} CreatePhisFreshAt(s: JoinState, reps: seq<MachineRepresentation>, k: nat, v: nat)
    requires v < k <= |reps| && v in s.point.phis
    requires CreatePhis(s, reps, k).Success?
    ensures var t := CreatePhis(s, reps, k).value;
      && v in t.point.phis
      && t.point.phis[v].Phi?
      && |s.graph| <= t.point.phis[v].index < |t.graph|
      && v in s.point.merges
      && t.graph[t.point.phis[v].index] == PhiNode(reps[v], s.point.merges[v])
  {
    CreatePhisFrame(s, reps, k);
    CreatePhisFrame(s, reps, k - 1);
    var t := CreatePhis(s, reps, k - 1).value;
    var u := CreatePhis(s, reps, k).value;
    if v == k - 1 {
      assert u.point.phis == t.point.phis[v := Phi(|t.graph|)];
      assert u.graph == t.graph + [PhiNode(reps[v], t.point.merges[v])];
    } else {
      CreatePhisFreshAt(s, reps, k - 1, v);
      if k - 1 in t.point.phis {
        assert u.point.phis == t.point.phis[k - 1 := Phi(|t.graph|)];
        assert u.graph == t.graph + [PhiNode(reps[k - 1], t.point.merges[k - 1])];
      } else {
        assert u == t;
      }
    }
  }

  /** The phis the loop creates are pairwise distinct. */
  lemma {:induction false} CreatePhisDistinct(s: JoinState, reps: seq<MachineRepresentation>, k: nat)
    requires k <= |reps|
    requires CreatePhis(s, reps, k).Success?
    ensures var t := CreatePhis(s, reps, k).value;
      && t.point.phis.Keys == s.point.phis.Keys
      && (forall v, w :: v in s.point.phis && w in s.point.phis && v < k && w < k && v != w ==>
            t.point.phis[v] != t.point.phis[w])
  {
    CreatePhisFrame(s, reps, k);
    if k > 0 {
      CreatePhisDistinct(s, reps, k - 1);
      CreatePhisFresh(s, reps, k - 1);
      var t := CreatePhis(s, reps, k - 1).value;
      var u := CreatePhis(s, reps, k).value;
      var v := k - 1;
      if v in t.point.phis {
        assert u.point.phis == t.point.phis[v := Phi(|t.graph|)];
      } else {
        assert u == t;
      }
    }
  }

  // Properties of the bind

  /** A log diverges exactly when it holds at least two distinct values:
      the scan's shared_value is the first entry, so any other value shows up. */
  lemma DivergesDistinctValues(log: seq<Node>)
    ensures Diverges(log) <==> |set x | x in log| >= 2
  {
    var vals := set x | x in log;
    if i :| 0 <= i < |log| && log[i] != log[0] {
      assert {log[0], log[i]} <= vals;
      assert |{log[0], log[i]}| == 2;
      SubsetCard({log[0], log[i]}, vals);
    } else if |log| == 0 {
      assert vals == {};
    } else {
      assert vals == {log[0]} by {
        forall x | x in vals ensures x == log[0] {
          var i :| 0 <= i < |log| && log[i] == x;
        }
      }
    }
  }

  lemma SubsetCard<T>(a: set<T>, b: set<T>)
    requires a <= b
    ensures |a| <= |b|
  {
    assert b == a + (b - a);
  }

  /** After the first loop of Bind, a variable has a phi slot exactly when it
      was declared merged or two of its logged values differ; a diverging
      variable's slot is reset to null, a declared one keeps its entry, and
      the logs and the edge count are untouched. */
  lemma MarkDivergentPhis(l: LabelState, n: nat)
    ensures forall v :: v in MarkDivergent(l, n).phis <==>
      v in l.phis || (v < n && v in l.merges && |set x | x in l.merges[v]| >= 2)
    ensures forall v :: v in l.phis && !(v < n && v in l.merges && Diverges(l.merges[v])) ==>
      MarkDivergent(l, n).phis[v] == l.phis[v]
    ensures forall v :: v < n && v in l.merges && Diverges(l.merges[v]) ==>
      MarkDivergent(l, n).phis[v] == Null
    ensures MarkDivergent(l, n).merges == l.merges
    ensures MarkDivergent(l, n).mergeCount == l.mergeCount
    ensures MarkDivergent(l, n).bound == l.bound
  {
    forall v | v in l.merges
      ensures Diverges(l.merges[v]) <==> |set x | x in l.merges[v]| >= 2
    {
      DivergesDistinctValues(l.merges[v]);
    }
  }

  /** Bind runs once: on a bound label it fails with DoubleBind; otherwise
      it fails exactly when a variable that gets a phi (declared as merged,
      or diverging) was not bound on every edge merged so far. */
  lemma BindLabelOutcome(l: LabelState, values: seq<Node>, reps: seq<MachineRepresentation>,
                         graph: seq<PhiNode>)
    requires |reps| == |values| && WellFormed(l, |values|, |graph|)
    ensures l.bound ==> BindLabel(l, values, reps, graph) == Failure(DoubleBind)
    ensures !l.bound ==>
      (BindLabel(l, values, reps, graph).Success? <==>
       forall v :: v in Marked(l, |values|) ==> PhiReady(l, v))
    ensures !l.bound && BindLabel(l, values, reps, graph).Failure? ==>
      exists v :: v in Marked(l, |values|) && !PhiReady(l, v) &&
        BindLabel(l, values, reps, graph).error == InconsistentMerge(v)
  {
    if !l.bound {
      var n := |values|;
      var s := JoinState(MarkDivergent(l, n), graph);
      CreatePhisOutcome(s, reps, n);
      assert s.point.phis.Keys == Marked(l, n);
      assert forall v :: PhiReady(s.point, v) == PhiReady(l, v);
    }
  }

  /** Every variable that gets a phi gets a fresh one, typed with the
      variable's representation, whose inputs are the values it carried on
      the edges in arrival order, one per edge. */
  lemma BindLabelPhis(l: LabelState, values: seq<Node>, reps: seq<MachineRepresentation>,
                      graph: seq<PhiNode>)
    requires |reps| == |values| && WellFormed(l, |values|, |graph|)
    requires BindLabel(l, values, reps, graph).Success?
    ensures var r := BindLabel(l, values, reps, graph).value;
      && r.point.bound && !l.bound
      && r.point.mergeCount == l.mergeCount && r.point.merges == l.merges
      && r.point.phis.Keys == Marked(l, |values|)
      && |graph| <= |r.graph|
      && (forall j :: 0 <= j < |graph| ==> r.graph[j] == graph[j])
      && (forall v :: v in Marked(l, |values|) ==>
            && r.point.phis[v].Phi?
            && |graph| <= r.point.phis[v].index < |r.graph|
            && v in l.merges
            && r.graph[r.point.phis[v].index] == PhiNode(reps[v], l.merges[v])
            && |l.merges[v]| == l.mergeCount)
  {
    var n := |values|;
    var s := JoinState(MarkDivergent(l, n), graph);
    BindLabelOutcome(l, values, reps, graph);
    CreatePhisOutcome(s, reps, n);
    CreatePhisResult(s, reps, n);
    assert s.point.phis.Keys == Marked(l, n);
  }

  /** After the bind a variable holds its phi; else, if it was bound on
      every edge (hence to one common value), that value; else nothing. */
  lemma BindLabelValues(l: LabelState, values: seq<Node>, reps: seq<MachineRepresentation>,
                        graph: seq<PhiNode>)
    requires |reps| == |values| && WellFormed(l, |values|, |graph|)
    requires BindLabel(l, values, reps, graph).Success?
    ensures var r := BindLabel(l, values, reps, graph).value;
      && |r.values| == |values|
      && (forall v :: 0 <= v < |values| && v in Marked(l, |values|) ==>
            v in r.point.phis && r.values[v] == r.point.phis[v] && r.values[v].Phi?)
      && (forall v :: 0 <= v < |values| && v !in Marked(l, |values|) && PhiReady(l, v) ==>
            r.values[v] == l.merges[v][0] && r.values[v] != Null && Uniform(l.merges[v], r.values[v]))
      && (forall v :: 0 <= v < |values| && v !in Marked(l, |values|) && !PhiReady(l, v) ==>
            r.values[v] == Null)
  {
    var n := |values|;
    var s := JoinState(MarkDivergent(l, n), graph);
    BindLabelPhis(l, values, reps, graph);
    CreatePhisFrame(s, reps, n);
    var t := CreatePhis(s, reps, n).value;
    var r := BindLabel(l, values, reps, graph).value;
    assert r.point.phis == t.point.phis;
    forall v | 0 <= v < n && v in Marked(l, n)
      ensures v in r.point.phis && r.values[v] == r.point.phis[v] && r.values[v].Phi?
    {
      assert r.values[v] == NewValue(t.point, v);
    }
    forall v | 0 <= v < n && v !in Marked(l, n)
      ensures r.values[v] == (if PhiReady(l, v) then l.merges[v][0] else Null)
    {
      assert v !in t.point.phis;
      assert r.values[v] == NewValue(t.point, v);
      if PhiReady(l, v) {
        var log := l.merges[v];
        assert !Diverges(log);
        assert log[|log| - 1] == log[0];
      }
    }
    forall v | 0 <= v < n && v !in Marked(l, n) && PhiReady(l, v)
      ensures r.values[v] != Null && Uniform(l.merges[v], r.values[v])
    {
      assert !Diverges(l.merges[v]);
    }
  }

  /** The bind leaves the label well formed, with phis that match the logs. */
  lemma BindLabelWellFormed(l: LabelState, values: seq<Node>, reps: seq<MachineRepresentation>,
                            graph: seq<PhiNode>)
    requires |reps| == |values| && WellFormed(l, |values|, |graph|)
    requires BindLabel(l, values, reps, graph).Success?
    ensures var r := BindLabel(l, values, reps, graph).value;
      WellFormed(r.point, |values|, |r.graph|) && PhisMatch(r.point, r.graph)
  {
    var n := |values|;
    var s := JoinState(MarkDivergent(l, n), graph);
    BindLabelPhis(l, values, reps, graph);
    CreatePhisResult(s, reps, n);
    var r := BindLabel(l, values, reps, graph).value;
    var m := r.point;
    assert forall v :: v in m.phis ==> v in Marked(l, n);
    forall v | v in m.phis ensures v < n && |Log(m, v)| == m.mergeCount {
    }
    forall v, w | v in m.phis && w in m.phis && v != w ensures m.phis[v] != m.phis[w] {
    }
    forall v | v in m.merges && v !in m.phis ensures !Diverges(m.merges[v]) {
    }
  }

  /** The phis the bind creates are new graph entries, all of which go to
      the bound label: the owners of the old entries stay, and each new
      entry is owned by k. */
  lemma BindLabelOwns<K>(l: LabelState, values: seq<Node>, reps: seq<MachineRepresentation>,
                             graph: seq<PhiNode>, owners: seq<K>, owners': seq<K>, k: K)
    requires |reps| == |values| && WellFormed(l, |values|, |graph|)
    requires BindLabel(l, values, reps, graph).Success?
    requires |owners| == |graph| && |owners'| == |BindLabel(l, values, reps, graph).value.graph|
    requires forall j :: 0 <= j < |owners'| ==> owners'[j] == if j < |owners| then owners[j] else k
    ensures OwnsPhis(BindLabel(l, values, reps, graph).value.point, owners', k)
  {
    BindLabelPhis(l, values, reps, graph);
  }

  /** The bind of one label keeps every other label's invariant, its phis'
      match with its logs and its ownership. */
  lemma BindKeepsOtherLabel<K>(l: LabelState, values: seq<Node>, reps: seq<MachineRepresentation>,
                                   graph: seq<PhiNode>, owners: seq<K>, owners': seq<K>,
                                   m: LabelState, km: K)
    requires |reps| == |values| && WellFormed(l, |values|, |graph|)
    requires BindLabel(l, values, reps, graph).Success?
    requires |owners| <= |owners'| && forall j :: 0 <= j < |owners| ==> owners'[j] == owners[j]
    requires WellFormed(m, |values|, |graph|) && PhisMatch(m, graph) && OwnsPhis(m, owners, km)
    ensures var g := BindLabel(l, values, reps, graph).value.graph;
      WellFormed(m, |values|, |g|) && PhisMatch(m, g) && OwnsPhis(m, owners', km)
  {
    BindLabelPhis(l, values, reps, graph);
    var g := BindLabel(l, values, reps, graph).value.graph;
    if m.bound {
      forall v | v in m.phis
        ensures g[m.phis[v].index] == graph[m.phis[v].index]
      {
      }
    }
  }

  // ---------------------------------------------------------------------
  // Failures are final: once a prefix of a loop fails, the whole loop does

  lemma {:induction false} MergePrefixFailureFinal(s: JoinState, values: seq<Node>, i: nat, k: nat)
    requires i <= k <= |values| && Live(s)
    requires MergePrefix(s, values, i).Failure?
    ensures MergePrefix(s, values, k) == MergePrefix(s, values, i)
    decreases k
  {
    if k > i {
      MergePrefixFailureFinal(s, values, i, k - 1);
    }
  }

  lemma {:induction false} CreatePhisFailureFinal(s: JoinState, reps: seq<MachineRepresentation>, i: nat, k: nat)
    requires i <= k <= |reps|
    requires CreatePhis(s, reps, i).Failure?
    ensures CreatePhis(s, reps, k) == CreatePhis(s, reps, i)
    decreases k
  {
    if k > i {
      CreatePhisFailureFinal(s, reps, i, k - 1);
    }
  }

  // ---------------------------------------------------------------------
  // Several labels in turn: Goto, Branch and Switch

  /** Every label of `states` is live in a graph of graphLen phis. */
  predicate AllLive<K>(states: map<K, LabelState>, graphLen: nat)
  {
    forall k :: k in states ==> PhisLive(states[k], graphLen)
  }

  /** Every label of `states` is well formed. */
  predicate AllWellFormed<K>(states: map<K, LabelState>, n: nat, graphLen: nat)
  {
    forall k :: k in states ==> WellFormed(states[k], n, graphLen)
  }

  /** Merge one edge into each of `targets` in turn; labels are named by
      keys, and `states` holds the state of each. */
  function MergeAll<K(==)>(targets: seq<K>, states: map<K, LabelState>, values: seq<Node>,
                           graph: seq<PhiNode>): (r: Result<(map<K, LabelState>, seq<PhiNode>)>)
    requires forall t :: t in targets ==> t in states
    requires forall k :: k in states ==> PhisLive(states[k], |graph|)
    ensures r.Success? ==>
      && r.value.0.Keys == states.Keys && |r.value.1| == |graph|
      && forall k :: k in r.value.0 ==> PhisLive(r.value.0[k], |graph|)
    decreases |targets|
  {
    if targets == [] then Success((states, graph))
    else
      var t := targets[|targets| - 1];
      match MergeAll(targets[..|targets| - 1], states, values, graph)
      case Failure(e) => Failure(e)
      case Success(p) =>
        match MergeEdge(p.0[t], values, p.1)
        case Failure(e) => Failure(e)
        case Success(j) => Success((p.0[t := j.point], j.graph))
  }

  function Count<K(==)>(s: seq<K>, k: K): nat
  {
    if s == [] then 0 else Count(s[..|s| - 1], k) + (if s[|s| - 1] == k then 1 else 0)
  }

  /** The entries an edge adds to a log: `c` copies of a bound value. */
  function Repeat(node: Node, c: nat): seq<Node>
  {
    if node == Null then [] else seq(c, _ => node)
  }

  /** MergeAll, one target further. */
  lemma MergeAllSnoc<K>(done: seq<K>, t: K, states: map<K, LabelState>, values: seq<Node>, graph: seq<PhiNode>)
    requires forall k :: k in done ==> k in states
    requires forall k :: k in states ==> PhisLive(states[k], |graph|)
    requires t in states && MergeAll(done, states, values, graph).Success?
    ensures var p := MergeAll(done, states, values, graph).value;
      MergeAll(done + [t], states, values, graph) ==
        match MergeEdge(p.0[t], values, p.1)
        case Failure(e) => Failure(e)
        case Success(j) => Success((p.0[t := j.point], j.graph))
  {
    assert (done + [t])[..|done|] == done;
  }

  /** One step of MergeAll: the last target's edge, after the others. */
  lemma MergeAllStep<K>(targets: seq<K>, states: map<K, LabelState>, values: seq<Node>, graph: seq<PhiNode>)
    requires forall t :: t in targets ==> t in states
    requires forall k :: k in states ==> PhisLive(states[k], |graph|)
    requires targets != [] && MergeAll(targets, states, values, graph).Success?
    ensures var front := targets[..|targets| - 1];
      var t := targets[|targets| - 1];
      && MergeAll(front, states, values, graph).Success?
      && var p := MergeAll(front, states, values, graph).value;
      && MergeEdge(p.0[t], values, p.1).Success?
      && MergeAll(targets, states, values, graph).value ==
           (p.0[t := MergeEdge(p.0[t], values, p.1).value.point], MergeEdge(p.0[t], values, p.1).value.graph)
  {
  }

  lemma MergeEdgeLogAt(l: LabelState, values: seq<Node>, graph: seq<PhiNode>, v: nat)
    requires PhisLive(l, |graph|) && v < |values|
    requires MergeEdge(l, values, graph).Success?
    ensures Log(MergeEdge(l, values, graph).value.point, v) ==
      Log(l, v) + (if values[v] == Null then [] else [values[v]])
  {
    MergePrefixLogs(JoinState(Incremented(l), graph), values, |values|);
  }

  /** An edge adds one more copy of a bound value to a log of copies. */
  lemma MergeEdgeLogRepeat(l: LabelState, values: seq<Node>, graph: seq<PhiNode>, v: nat,
                           base: seq<Node>, c: nat)
    requires PhisLive(l, |graph|) && v < |values|
    requires MergeEdge(l, values, graph).Success?
    requires Log(l, v) == base + Repeat(values[v], c)
    ensures Log(MergeEdge(l, values, graph).value.point, v) == base + Repeat(values[v], c + 1)
  {
    var added := if values[v] == Null then [] else [values[v]];
    MergeEdgeLogAt(l, values, graph, v);
    RepeatStep(values[v], c);
    assert (base + Repeat(values[v], c)) + added == base + (Repeat(values[v], c) + added);
  }

  lemma RepeatStep(node: Node, c: nat)
    ensures Repeat(node, c) + (if node == Null then [] else [node]) == Repeat(node, c + 1)
  {
    if node != Null {
      assert Repeat(node, c) + [node] == Repeat(node, c + 1);
    }
  }

  /** Each label named c times among the targets receives c edges;
      whether it is bound, and its phis, do not change. */
  lemma {:induction false} MergeAllCounts<K>(targets: seq<K>, states: map<K, LabelState>,
                                             values: seq<Node>, graph: seq<PhiNode>, k: K)
    requires forall t :: t in targets ==> t in states
    requires forall k :: k in states ==> PhisLive(states[k], |graph|)
    requires MergeAll(targets, states, values, graph).Success? && k in states
    ensures var m := MergeAll(targets, states, values, graph).value.0[k];
      && m.mergeCount == states[k].mergeCount + Count(targets, k)
      && m.bound == states[k].bound && m.phis == states[k].phis
    decreases |targets|
  {
    if targets != [] {
      var front := targets[..|targets| - 1];
      var t := targets[|targets| - 1];
      MergeAllStep(targets, states, values, graph);
      MergeAllCounts(front, states, values, graph, k);
    }
  }

  /** ... and each of those edges appends the current value of every
      bound variable to that variable's log. */
  lemma {:induction false} MergeAllLogs<K>(targets: seq<K>, states: map<K, LabelState>,
                                           values: seq<Node>, graph: seq<PhiNode>, k: K, v: nat)
    requires forall t :: t in targets ==> t in states
    requires forall k :: k in states ==> PhisLive(states[k], |graph|)
    requires MergeAll(targets, states, values, graph).Success? && k in states && v < |values|
    ensures Log(MergeAll(targets, states, values, graph).value.0[k], v) ==
      Log(states[k], v) + Repeat(values[v], Count(targets, k))
    decreases |targets|
  {
    if targets != [] {
      var front := targets[..|targets| - 1];
      var t := targets[|targets| - 1];
      MergeAllStep(targets, states, values, graph);
      MergeAllLogs(front, states, values, graph, k, v);
      var p := MergeAll(front, states, values, graph).value;
      var j := MergeEdge(p.0[t], values, p.1).value;
      var m := MergeAll(targets, states, values, graph).value.0[k];
      var c := Count(front, k);
      if k == t {
        assert m == j.point;
        assert Count(targets, k) == c + 1;
        MergeEdgeLogRepeat(p.0[t], values, p.1, v, Log(states[k], v), c);
      } else {
        assert m == p.0[k];
        assert Count(targets, k) == c;
      }
    }
  }

  /** The order in which Switch merges: each case label, then the default. */
  function SwitchTargets<K>(cases: seq<K>, default: K): (r: seq<K>)
    ensures forall t :: t in r ==> t in cases || t == default
  {
    if cases == [] then []
    else SwitchTargets(cases[..|cases| - 1], default) + [cases[|cases| - 1], default]
  }

  /** Switch merges the default label once per case, and each case label
      once per occurrence among the cases. */
  lemma {:induction false} SwitchTargetsCount<K>(cases: seq<K>, default: K, k: K)
    ensures Count(SwitchTargets(cases, default), k) ==
      Count(cases, k) + (if k == default then |cases| else 0)
  {
    if cases != [] {
      var front := cases[..|cases| - 1];
      SwitchTargetsCount(front, default, k);
      var a := SwitchTargets(front, default) + [cases[|cases| - 1]];
      assert SwitchTargets(cases, default)[..|SwitchTargets(cases, default)| - 1] == a;
      assert a[..|a| - 1] == SwitchTargets(front, default);
    }
  }

  /** A successful Switch raises each label's edge count by the number of
      cases it labels, and the default label's by one more per case. */
  lemma SwitchMergeCounts<K>(cases: seq<K>, default: K, states: map<K, LabelState>,
                             values: seq<Node>, graph: seq<PhiNode>, k: K)
    requires (forall t :: t in cases ==> t in states) && default in states
    requires forall k :: k in states ==> PhisLive(states[k], |graph|)
    requires MergeAll(SwitchTargets(cases, default), states, values, graph).Success? && k in states
    ensures MergeAll(SwitchTargets(cases, default), states, values, graph).value.0[k].mergeCount ==
      states[k].mergeCount + Count(cases, k) + (if k == default then |cases| else 0)
  {
    MergeAllCounts(SwitchTargets(cases, default), states, values, graph, k);
    SwitchTargetsCount(cases, default, k);
  }

  /** Merging into several labels keeps every label well formed. */
  lemma {:induction false} MergeAllWellFormed<K>(targets: seq<K>, states: map<K, LabelState>,
                                                 values: seq<Node>, graph: seq<PhiNode>, k: K)
    requires forall t :: t in targets ==> t in states
    requires forall k :: k in states ==> WellFormed(states[k], |values|, |graph|)
    requires forall k :: k in states ==> PhisLive(states[k], |graph|)
    requires MergeAll(targets, states, values, graph).Success? && k in states
    ensures WellFormed(MergeAll(targets, states, values, graph).value.0[k], |values|, |graph|)
    decreases |targets|
  {
    if targets != [] {
      var front := targets[..|targets| - 1];
      var t := targets[|targets| - 1];
      MergeAllStep(targets, states, values, graph);
      var p := MergeAll(front, states, values, graph).value;
      if k == t {
        MergeAllWellFormed(front, states, values, graph, t);
        MergeEdgeWellFormed(p.0[t], values, p.1);
      } else {
        MergeAllWellFormed(front, states, values, graph, k);
      }
    }
  }

  /** Every label of `states` has phis that match its logs and belong to it. */
  predicate AllMatched<K(==)>(states: map<K, LabelState>, graph: seq<PhiNode>, owners: seq<K>)
  {
    forall k :: k in states ==> PhisMatch(states[k], graph) && OwnsPhis(states[k], owners, k)
  }

  /** Merging into several labels keeps every label's phis matching its
      logs and owned by it, and changes no graph entry that belongs to a
      label outside `states`. */
  lemma {:induction false} MergeAllMatched<K>(targets: seq<K>, states: map<K, LabelState>,
                                                  values: seq<Node>, graph: seq<PhiNode>, owners: seq<K>)
    requires forall t :: t in targets ==> t in states
    requires AllWellFormed(states, |values|, |graph|) && AllLive(states, |graph|)
    requires AllMatched(states, graph, owners)
    requires MergeAll(targets, states, values, graph).Success?
    ensures var r := MergeAll(targets, states, values, graph).value;
      AllMatched(r.0, r.1, owners)
    ensures var r := MergeAll(targets, states, values, graph).value;
      forall j :: 0 <= j < |graph| && j < |owners| && owners[j] !in states ==> r.1[j] == graph[j]
    decreases |targets|
  {
    if targets != [] {
      var front := targets[..|targets| - 1];
      var t := targets[|targets| - 1];
      MergeAllStep(targets, states, values, graph);
      MergeAllMatched(front, states, values, graph, owners);
      MergeAllWellFormed(front, states, values, graph, t);
      var p := MergeAll(front, states, values, graph).value;
      var e := MergeEdge(p.0[t], values, p.1);
      var r := MergeAll(targets, states, values, graph).value;
      assert r == (p.0[t := e.value.point], e.value.graph);
      MergeEdgeAppendsPhiInputs(p.0[t], values, p.1);
      MergeEdgeLogs(p.0[t], values, p.1);
      MergeEdgeKeepsOthers(p.0[t], values, p.1, owners, t);
      forall k | k in r.0
        ensures PhisMatch(r.0[k], r.1) && OwnsPhis(r.0[k], owners, k)
      {
        if k != t {
          MergeEdgeKeepsOtherLabel(p.0[t], values, p.1, owners, t, p.0[k], k);
        }
      }
    }
  }

  /** Position 2i of the Switch order is case i, position 2i + 1 the
      default. */
  lemma {:induction false} SwitchTargetsAt<K>(cases: seq<K>, default: K)
    ensures |SwitchTargets(cases, default)| == 2 * |cases|
    ensures forall i :: 0 <= i < |cases| ==>
      SwitchTargets(cases, default)[2 * i] == cases[i] && SwitchTargets(cases, default)[2 * i + 1] == default
    decreases |cases|
  {
    if cases != [] {
      var front := cases[..|cases| - 1];
      SwitchTargetsAt(front, default);
    }
  }

  lemma TakeOneMore<T>(s: seq<T>, k: nat)
    requires k < |s|
    ensures s[..k] + [s[k]] == s[..k + 1]
  {
  }

  /** A failing prefix of the targets makes the whole sequence fail the
      same way. */
  lemma {:induction false} MergeAllFailureFinal<K>(prefix: seq<K>, targets: seq<K>, states: map<K, LabelState>,
                                                   values: seq<Node>, graph: seq<PhiNode>)
    requires prefix <= targets
    requires forall t :: t in targets ==> t in states
    requires forall k :: k in states ==> PhisLive(states[k], |graph|)
    requires MergeAll(prefix, states, values, graph).Failure?
    ensures MergeAll(targets, states, values, graph) == MergeAll(prefix, states, values, graph)
    decreases |targets|
  {
    if |targets| > |prefix| {
      var front := targets[..|targets| - 1];
      assert prefix <= front;
      MergeAllFailureFinal(prefix, front, states, values, graph);
    } else {
      assert prefix == targets;
    }
  }

  /** The first loop of Bind, one variable further. */
  lemma MarkDivergentStep(l: LabelState, i: nat)
    requires forall v :: v in l.phis ==> l.phis[v] == Null
    ensures MarkDivergent(l, i + 1).phis ==
      if i in l.merges && Diverges(l.merges[i]) then MarkDivergent(l, i).phis[i := Null]
      else MarkDivergent(l, i).phis
  {
  }
}
