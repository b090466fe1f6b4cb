// CodeStubAssembler, its Variables and its Labels as objects
// (v8/src/compiler/code-stub-assembler.cc:27-77, 135-137, 791-977).
// Every method is proved against the functions of module JoinPoints: a
// method that succeeds leaves exactly the state the function computes, and
// one whose DCHECK fails reports the error the function predicts.

module Assembler {
  import opened Nodes
  import opened JoinPoints

  /** The assembler: the registry of variables (`variables_`, one entry per
      Variable::Impl, holding its `value_` and `rep_`), the phis it has put
      into the graph so far, and `code_generated_`. `owners[j]` is the label
      whose Bind created phi j. */
  class CodeStubAssembler {
    var values: seq<Node>
    var reps: seq<MachineRepresentation>
    var graph: seq<PhiNode>
    ghost var owners: seq<Label>
    var codeGenerated: bool

    ghost predicate Valid()
      reads this
    {
      |values| == |reps| && |owners| == |graph|
    }

    constructor()
      ensures Valid()
      ensures values == [] && reps == [] && graph == [] && owners == [] && !codeGenerated
    {
      values := [];
      reps := [];
      graph := [];
      owners := [];
      codeGenerated := false;
    }

    /** GenerateCode may be called once; the pipeline it runs is not part
        of this model. */
    method GenerateCode() returns (r: Outcome)
      modifies this`codeGenerated
      ensures r == (if old(codeGenerated) then Fail(DoubleGenerate) else Pass)
      ensures r.Pass? ==> codeGenerated
    {
      if codeGenerated {
        return Fail(DoubleGenerate);
      }
      codeGenerated := true;
      return Pass;
    }

    /** RawMachineAssembler::AppendPhiInput on one of this assembler's phis. */
    method AppendPhiInput(phi: Node, node: Node)
      requires phi.Phi? && phi.index < |graph|
      modifies this`graph
      ensures graph == old(graph)[phi.index := AppendInput(old(graph)[phi.index], node)]
    {
      graph := graph[phi.index := AppendInput(graph[phi.index], node)];
    }

    /** RawMachineAssembler::Phi: a fresh phi node at the end of the graph,
        created for label `owner`. */
    method NewPhi(rep: MachineRepresentation, inputs: seq<Node>, ghost owner: Label) returns (phi: Node)
      modifies this`graph, this`owners
      ensures phi == Phi(|old(graph)|)
      ensures graph == old(graph) + [PhiNode(rep, inputs)]
      ensures owners == old(owners) + [owner]
    {
      phi := Phi(|graph|);
      graph := graph + [PhiNode(rep, inputs)];
      owners := owners + [owner];
    }

    /** CodeStubAssembler::Bind(label). */
    method Bind(target: Label) returns (r: Outcome)
      requires Valid() && target.asm == this && target.Valid()
      modifies target, this`values, this`graph, this`owners
      ensures var b := BindLabel(old(target.State()), old(values), reps, old(graph));
        && r == ToOutcome(b)
        && (b.Success? ==>
              target.State() == b.value.point && values == b.value.values && graph == b.value.graph)
      ensures r.Pass? ==> target.Valid() && Valid()
      ensures r.Pass? ==> forall L: Label ::
        L != target && L.asm == this && old(allocated(L)) && old(L.Valid()) ==> L.Valid()
    {
      r := target.Bind();
    }

    /** CodeStubAssembler::Goto: one edge into `target`. */
    method Goto(target: Label) returns (r: Outcome)
      requires target.asm == this && target.Valid()
      modifies target, this`graph
      ensures var m := MergeEdge(old(target.State()), values, old(graph));
        && r == ToOutcome(m)
        && (m.Success? ==> target.State() == m.value.point && graph == m.value.graph)
      ensures r.Pass? ==> target.Valid()
      ensures r.Pass? ==> forall L: Label ::
        L != target && L.asm == this && old(allocated(L)) && old(L.Valid()) ==> L.Valid()
    {
      ghost var l0 := target.State();
      ghost var g0 := graph;
      r := target.MergeVariables();
      if r.Pass? {
        forall L: Label | L != target && L.asm == this && old(allocated(L)) && old(L.Valid())
          ensures L.Valid()
        {
          MergeEdgeKeepsOtherLabel(l0, values, g0, owners, target, L.State(), L);
        }
      }
    }

    /** CodeStubAssembler::Branch: an edge into the true label, then one into
        the false label (the two may be the same label). */
    method Branch(condition: Node, trueLabel: Label, falseLabel: Label) returns (r: Outcome)
      requires trueLabel.asm == this && trueLabel.Valid()
      requires falseLabel.asm == this && falseLabel.Valid()
      modifies trueLabel, falseLabel, this`graph
      ensures var m := MergeAll([trueLabel, falseLabel], old(States([trueLabel, falseLabel])), values, old(graph));
        && r == ToOutcome(m)
        && (m.Success? ==> States([trueLabel, falseLabel]) == m.value.0 && graph == m.value.1)
      ensures r.Pass? ==> trueLabel.Valid() && falseLabel.Valid()
      ensures r.Pass? ==> forall L: Label ::
        L != trueLabel && L != falseLabel && L.asm == this && old(allocated(L)) && old(L.Valid()) ==> L.Valid()
    {
      r := MergeEdges([trueLabel, falseLabel], [trueLabel, falseLabel]);
    }

    /** CodeStubAssembler::Switch: for each case in order, an edge into the
        case label and then one into the default label. */
    method Switch(index: Node, default: Label, caseValues: seq<int>, caseLabels: seq<Label>)
      returns (r: Outcome)
      requires |caseValues| == |caseLabels|
      requires forall L :: L in caseLabels + [default] ==> L.asm == this && L.Valid()
      modifies default, set L | L in caseLabels, this`graph
      ensures var st := old(States(caseLabels + [default]));
        && AllLive(st, |old(graph)|)
        && var m := MergeAll(SwitchTargets(caseLabels, default), st, values, old(graph));
        && r == ToOutcome(m)
        && (m.Success? ==> States(caseLabels + [default]) == m.value.0 && graph == m.value.1)
      ensures r.Pass? ==> forall L :: L in caseLabels + [default] ==> L.Valid()
      ensures r.Pass? ==> forall L: Label ::
        L !in caseLabels + [default] && L.asm == this && old(allocated(L)) && old(L.Valid()) ==> L.Valid()
    {
      r := MergeEdges(caseLabels + [default], SwitchTargets(caseLabels, default));
    }

    /** One edge into each of `targets` in turn, all of them among `labels`. */
    method MergeEdges(labels: seq<Label>, targets: seq<Label>) returns (r: Outcome)
      requires forall L :: L in labels ==> L.asm == this && L.Valid()
      requires forall t :: t in targets ==> t in labels
      modifies set L | L in labels, this`graph
      ensures var st := old(States(labels));
        && AllLive(st, |old(graph)|)
        && var m := MergeAll(targets, st, values, old(graph));
        && r == ToOutcome(m)
        && (m.Success? ==> States(labels) == m.value.0 && graph == m.value.1)
      ensures r.Pass? ==> forall L :: L in labels ==> L.Valid()
      ensures r.Pass? ==> forall L: Label ::
        L !in labels && L.asm == this && old(allocated(L)) && old(L.Valid()) ==> L.Valid()
    {
      ghost var st0 := States(labels);
      ghost var g0 := graph;
      StatesWellFormed(this, labels);
      var i := 0;
      while i < |targets|
        invariant 0 <= i <= |targets|
        invariant MergeAll(targets[..i], st0, values, g0) == Success((States(labels), graph))
      {
        TakeOneMore(targets, i);
        r := MergeNext(targets[i], labels, targets[..i], st0, g0);
        if r.Fail? {
          MergeAllFailureFinal(targets[..i + 1], targets, st0, values, g0);
          return;
        }
        i := i + 1;
      }
      assert targets[..i] == targets;
      MergedLabelsValid(this, labels, targets, st0, g0);
      forall L: Label | L !in labels && L.asm == this && old(allocated(L)) && old(L.Valid())
        ensures L.Valid()
      {
        OutsideLabelValid(this, labels, targets, st0, g0, L);
      }
      return Pass;
    }

    /** One edge into `target`, one of `labels`, after the edges into
        `done` that started from states `st0` and graph `g0`. */
    method MergeNext(target: Label, labels: seq<Label>, ghost done: seq<Label>,
                     ghost st0: map<Label, LabelState>, ghost g0: seq<PhiNode>) returns (r: Outcome)
      requires target in labels && target.asm == this
      requires target in st0 && forall t :: t in done ==> t in st0
      requires AllLive(st0, |g0|) && AllWellFormed(st0, |values|, |g0|) && AllMatched(st0, g0, owners)
      requires MergeAll(done, st0, values, g0) == Success((States(labels), graph))
      modifies target, this`graph
      ensures r == ToOutcome(MergeAll(done + [target], st0, values, g0))
      ensures r.Pass? ==> MergeAll(done + [target], st0, values, g0) == Success((States(labels), graph))
    {
      ghost var st := States(labels);
      MergedLabelValid(this, labels, done, st0, g0, target);
      MergeAllSnoc(done, target, st0, values, g0);
      r := target.MergeVariables();
      if r.Pass? {
        forall L | L in labels && L != target
          ensures st[L] == L.State()
        {
        }
        StatesAfterEdge(labels, target, st);
      }
    }
  }

  /** After a sequence of merges, each label involved is valid. */
  lemma MergedLabelValid(asm: CodeStubAssembler, labels: seq<Label>, targets: seq<Label>,
                         st0: map<Label, LabelState>, g0: seq<PhiNode>, L: Label)
    requires L in labels && L.asm == asm
    requires forall t :: t in targets ==> t in st0
    requires AllLive(st0, |g0|) && AllWellFormed(st0, |asm.values|, |g0|) && AllMatched(st0, g0, asm.owners)
    requires MergeAll(targets, st0, asm.values, g0) == Success((States(labels), asm.graph))
    ensures L.Valid()
  {
    MergeAllWellFormed(targets, st0, asm.values, g0, L);
    MergeAllMatched(targets, st0, asm.values, g0, asm.owners);
  }

  /** After a sequence of merges into `labels`, a label outside them that
      was valid is still valid: its phis are not among those that changed. */
  lemma OutsideLabelValid(asm: CodeStubAssembler, labels: seq<Label>, targets: seq<Label>,
                          st0: map<Label, LabelState>, g0: seq<PhiNode>, L: Label)
    requires L !in labels && L.asm == asm && st0.Keys == set M | M in labels
    requires forall t :: t in targets ==> t in st0
    requires AllLive(st0, |g0|) && AllWellFormed(st0, |asm.values|, |g0|) && AllMatched(st0, g0, asm.owners)
    requires MergeAll(targets, st0, asm.values, g0) == Success((States(labels), asm.graph))
    requires WellFormed(L.State(), |asm.values|, |g0|) && PhisMatch(L.State(), g0)
    requires OwnsPhis(L.State(), asm.owners, L)
    ensures L.Valid()
  {
    MergeAllMatched(targets, st0, asm.values, g0, asm.owners);
  }

  /** Valid labels have well-formed, live states whose phis match their
      logs and belong to them. */
  lemma StatesWellFormed(asm: CodeStubAssembler, labels: seq<Label>)
    requires forall L :: L in labels ==> L.asm == asm && L.Valid()
    ensures AllLive(States(labels), |asm.graph|)
    ensures AllWellFormed(States(labels), |asm.values|, |asm.graph|)
    ensures AllMatched(States(labels), asm.graph, asm.owners)
  {
  }

  /** After a sequence of merges, every label involved is valid. */
  lemma MergedLabelsValid(asm: CodeStubAssembler, labels: seq<Label>, targets: seq<Label>,
                          st0: map<Label, LabelState>, g0: seq<PhiNode>)
    requires forall L :: L in labels ==> L.asm == asm
    requires forall t :: t in targets ==> t in st0
    requires AllLive(st0, |g0|) && AllWellFormed(st0, |asm.values|, |g0|) && AllMatched(st0, g0, asm.owners)
    requires MergeAll(targets, st0, asm.values, g0) == Success((States(labels), asm.graph))
    ensures forall L :: L in labels ==> L.Valid()
  {
    forall L | L in labels
      ensures L.Valid()
    {
      MergedLabelValid(asm, labels, targets, st0, g0, L);
    }
  }

  /** The bookkeeping state of each of `labels`. */
  ghost function States(labels: seq<Label>): (r: map<Label, LabelState>)
    reads set L | L in labels
    ensures r.Keys == set L | L in labels
    ensures forall L :: L in labels ==> r[L] == L.State()
  {
    map L | L in labels :: L.State()
  }

  /** The states of `labels` after an edge into `target` that changed
      no other label. */
  lemma StatesAfterEdge(labels: seq<Label>, target: Label, st: map<Label, LabelState>)
    requires target in labels && st.Keys == set L | L in labels
    requires forall L :: L in labels && L != target ==> st[L] == L.State()
    ensures States(labels) == st[target := target.State()]
  {
    forall L | L in labels
      ensures States(labels)[L] == st[target := target.State()][L]
    {
    }
  }

  /** A variable: a handle to one entry of its assembler's registry. */
  class Variable {
    const asm: CodeStubAssembler
    const index: nat

    /** The variable's registry entry exists. */
    ghost predicate Registered()
      reads asm
    {
      index < |asm.values|
    }

    /** A new variable starts unbound; its entry is appended to the registry. */
    constructor(asm: CodeStubAssembler, rep: MachineRepresentation)
      requires asm.Valid()
      modifies asm`values, asm`reps
      ensures this.asm == asm && index == |old(asm.values)|
      ensures asm.values == old(asm.values) + [Null] && asm.reps == old(asm.reps) + [rep]
      ensures asm.Valid() && Registered() && !IsBound()
      ensures forall L: Label :: L.asm == asm && old(allocated(L)) && old(L.Valid()) ==> L.Valid()
    {
      this.asm := asm;
      this.index := |asm.values|;
      new;
      asm.values := asm.values + [Null];
      asm.reps := asm.reps + [rep];
    }

    predicate IsBound()
      requires Registered()
      reads asm
    {
      asm.values[index] != Null
    }

    method Bind(node: Node)
      requires Registered()
      modifies asm`values
      ensures asm.values == old(asm.values)[index := node]
      ensures forall L: Label :: L.asm == asm && old(allocated(L)) && old(L.Valid()) ==> L.Valid()
    {
      asm.values := asm.values[index := node];
    }

    /** Variable::value(): the value, which must be bound. */
    function Value(): (r: Result<Node>)
      requires Registered()
      reads asm
      ensures r.Success? <==> IsBound()
      ensures r.Success? ==> r.value == asm.values[index] && r.value != Null
      ensures r.Failure? ==> r.error == UnboundVariable(index)
    {
      if asm.values[index] == Null then Failure(UnboundVariable(index)) else Success(asm.values[index])
    }

    function Rep(): MachineRepresentation
      requires Registered() && asm.Valid()
      reads asm
    {
      asm.reps[index]
    }
  }

  /** A join point. `deferred` is the layout hint of Label::Type; it only
      reaches the machine-level label. */
  class Label {
    const asm: CodeStubAssembler
    const deferred: bool
    var bound: bool
    var mergeCount: nat
    var merges: map<nat, seq<Node>>
    var phis: map<nat, Node>

    function State(): LabelState
      reads this
    {
      LabelState(bound, mergeCount, merges, phis)
    }

    /** The label invariant; once bound, each phi's inputs are its
        variable's log and the phi is one this label created. */
    ghost predicate Valid()
      reads this, asm
    {
      && WellFormed(State(), |asm.values|, |asm.graph|)
      && PhisMatch(State(), asm.graph)
      && OwnsPhis(State(), asm.owners, this)
    }

    /** A new label, with the variables its author declares as merged. */
    constructor(asm: CodeStubAssembler, merged: seq<Variable>, deferred: bool)
      requires forall x :: x in merged ==> x.asm == asm && x.Registered()
      ensures this.asm == asm && this.deferred == deferred
      ensures State() == Initial(set x | x in merged :: x.index)
      ensures Valid()
    {
      var slots: map<nat, Node> := map[];
      var i := 0;
      while i < |merged|
        invariant 0 <= i <= |merged|
        invariant slots == Initial(set x | x in merged[..i] :: x.index).phis
      {
        ghost var declared := set x | x in merged[..i] :: x.index;
        assert (set x | x in merged[..i + 1] :: x.index) == declared + {merged[i].index} by {
          assert merged[..i + 1] == merged[..i] + [merged[i]];
        }
        InitialInsert(declared, merged[i].index);
        slots := slots[merged[i].index := Null];
        i := i + 1;
      }
      assert merged[..i] == merged;
      this.asm := asm;
      this.deferred := deferred;
      bound := false;
      mergeCount := 0;
      merges := map[];
      phis := slots;
      InitialWellFormed(set x | x in merged :: x.index, |asm.values|, |asm.graph|);
    }

    /** One iteration of the loop of MergeVariables: log variable v's
        value `node` on the new edge and check it. */
    method LogValue(v: nat, node: Node) returns (r: Outcome)
      requires Live(JoinState(State(), asm.graph))
      modifies this`merges, asm`graph
      ensures var m := MergeVariable(JoinState(old(State()), old(asm.graph)), v, node);
        && r == ToOutcome(m)
        && (m.Success? ==> JoinState(State(), asm.graph) == m.value)
    {
      ghost var t := JoinState(State(), asm.graph);
      var count := 0;
      if node != Null {
        if v in merges {
          merges := merges[v := merges[v] + [node]];
          count := |merges[v]|;
        } else {
          count := 1;
          merges := merges[v := [node]];
          assert Log(t.point, v) + [node] == [node];
        }
      }
      assert count == EdgeCount(t.point, v, node);
      if v in phis && count != mergeCount {
        return Fail(InconsistentMerge(v));
      }
      if bound {
        if v in phis {
          asm.AppendPhiInput(phis[v], node);
        } else if v in merges {
          var log := merges[v];
          assert log == EdgeLog(t.point, v, node);
          var j := 0;
          while j < |log|
            invariant 0 <= j <= |log|
            invariant forall k :: 0 <= k < j ==> log[k] == node
          {
            if log[j] != node {
              return Fail(InconsistentMerge(v));
            }
            j := j + 1;
          }
        } else {
          assert EdgeLog(t.point, v, node) == [];
        }
      }
      return Pass;
    }

    /** Label::MergeVariables: one edge into this label. */
    method MergeVariables() returns (r: Outcome)
      requires Valid()
      modifies this, asm`graph
      ensures var m := MergeEdge(old(State()), asm.values, old(asm.graph));
        && r == ToOutcome(m)
        && (m.Success? ==> State() == m.value.point && asm.graph == m.value.graph)
      ensures r.Pass? ==> Valid()
    {
      ghost var l0 := State();
      ghost var s0 := JoinState(Incremented(l0), asm.graph);
      mergeCount := mergeCount + 1;
      var vars := asm.values;
      var i := 0;
      while i < |vars|
        invariant 0 <= i <= |vars|
        invariant vars == asm.values
        invariant MergePrefix(s0, vars, i) == Success(JoinState(State(), asm.graph))
      {
        r := LogValue(i, vars[i]);
        if r.Fail? {
          MergePrefixFailureFinal(s0, vars, i + 1, |vars|);
          return;
        }
        i := i + 1;
      }
      MergeEdgeWellFormed(l0, vars, old(asm.graph));
      MergeEdgeAppendsPhiInputs(l0, vars, old(asm.graph));
      return Pass;
    }

    /** The first loop of Label::Bind: mark for a phi every variable whose
        log holds two distinct values. */
    method MarkDivergentVariables(n: nat)
      requires forall v :: v in merges ==> Null !in merges[v]
      requires forall v :: v in phis ==> phis[v] == Null
      modifies this`phis
      ensures State() == MarkDivergent(old(State()), n)
    {
      ghost var l0 := State();
      var i := 0;
      while i < n
        invariant 0 <= i <= n
        invariant phis == MarkDivergent(l0, i).phis
      {
        MarkIfDivergent(i);
        MarkDivergentStep(l0, i);
        i := i + 1;
      }
    }

    /** One iteration of that loop: scan v's log for a second value. */
    method MarkIfDivergent(v: nat)
      requires v in merges ==> Null !in merges[v]
      modifies this`phis
      ensures phis == if v in merges && Diverges(merges[v]) then old(phis)[v := Null] else old(phis)
    {
      if v in merges {
        var log := merges[v];
        var shared := Null;
        var j := 0;
        while j < |log|
          invariant 0 <= j <= |log|
          invariant shared == if j == 0 then Null else log[0]
          invariant phis == if Diverges(log[..j]) then old(phis)[v := Null] else old(phis)
        {
          var value := log[j];
          if value != shared {
            if shared == Null {
              shared := value;
            } else {
              phis := phis[v := Null];
            }
          }
          assert Diverges(log[..j + 1]) <==> Diverges(log[..j]) || (j > 0 && log[j] != log[0]);
          j := j + 1;
        }
        assert log[..j] == log;
      }
    }

    /** The second loop of Label::Bind: a phi for every marked variable,
        whose inputs are the variable's log. */
    method CreatePhiNodes() returns (r: Outcome)
      requires asm.Valid()
      modifies this`phis, asm`graph, asm`owners
      ensures var c := CreatePhis(JoinState(old(State()), old(asm.graph)), asm.reps, |asm.reps|);
        && r == ToOutcome(c)
        && (c.Success? ==> JoinState(State(), asm.graph) == c.value)
      ensures asm.Valid()
      ensures forall j :: 0 <= j < |asm.owners| ==>
        asm.owners[j] == if j < |old(asm.owners)| then old(asm.owners)[j] else this
    {
      ghost var s1 := JoinState(State(), asm.graph);
      var n := |asm.reps|;
      var i := 0;
      while i < n
        invariant 0 <= i <= n
        invariant CreatePhis(s1, asm.reps, i) == Success(JoinState(State(), asm.graph))
        invariant asm.Valid() && |old(asm.owners)| <= |asm.owners|
        invariant forall j :: 0 <= j < |asm.owners| ==>
          asm.owners[j] == if j < |old(asm.owners)| then old(asm.owners)[j] else this
      {
        if i in phis {
          if !(i in merges && |merges[i]| == mergeCount) {
            CreatePhisFailureFinal(s1, asm.reps, i + 1, n);
            return Fail(InconsistentMerge(i));
          }
          var phi := asm.NewPhi(asm.reps[i], merges[i], this);
          phis := phis[i := phi];
        }
        i := i + 1;
      }
      return Pass;
    }

    /** The third loop of Label::Bind: every variable takes its phi, the
        value it had on every edge, or no value. */
    method RebindVariables()
      requires forall v :: v in merges ==> merges[v] != []
      modifies asm`values
      ensures asm.values == Rebind(State(), |old(asm.values)|)
    {
      var n := |asm.values|;
      var i := 0;
      while i < n
        invariant 0 <= i <= n == |asm.values|
        invariant forall v :: 0 <= v < i ==> asm.values[v] == NewValue(State(), v)
      {
        if i in phis {
          asm.values := asm.values[i := phis[i]];
        } else if i in merges && |merges[i]| == mergeCount {
          asm.values := asm.values[i := merges[i][|merges[i]| - 1]];
        } else {
          asm.values := asm.values[i := Null];
        }
        i := i + 1;
      }
    }

    /** Label::Bind: mark the diverging variables, create their phis, and
        rebind every variable. */
    method Bind() returns (r: Outcome)
      requires Valid() && asm.Valid()
      modifies this, asm`values, asm`graph, asm`owners
      ensures var b := BindLabel(old(State()), old(asm.values), asm.reps, old(asm.graph));
        && r == ToOutcome(b)
        && (b.Success? ==>
              State() == b.value.point && asm.values == b.value.values && asm.graph == b.value.graph)
      ensures r.Pass? ==> Valid() && asm.Valid()
      ensures r.Pass? ==> forall L: Label ::
        L != this && L.asm == asm && old(allocated(L)) && old(L.Valid()) ==> L.Valid()
    {
      if bound {
        return Fail(DoubleBind);
      }
      ghost var l0 := State();
      MarkDivergentVariables(|asm.values|);
      r := CreatePhiNodes();
      if r.Fail? {
        return;
      }
      ghost var t := CreatePhis(JoinState(MarkDivergent(l0, |asm.values|), old(asm.graph)), asm.reps, |asm.values|);
      CreatePhisResult(JoinState(MarkDivergent(l0, |asm.values|), old(asm.graph)), asm.reps, |asm.values|);
      RebindVariables();
      bound := true;
      BindLabelWellFormed(l0, old(asm.values), asm.reps, old(asm.graph));
      BindLabelOwns(l0, old(asm.values), asm.reps, old(asm.graph), old(asm.owners), asm.owners, this);
      forall L: Label | L != this && L.asm == asm && old(allocated(L)) && old(L.Valid())
        ensures L.Valid()
      {
        BindKeepsOtherLabel(l0, old(asm.values), asm.reps, old(asm.graph), old(asm.owners), asm.owners,
                            L.State(), L);
      }
    }
  }
}
