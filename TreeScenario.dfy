/** A run of tree events on which the source's DELETE destroys a node that
    stays in the tree. Top-level nodes A (data 1) and E (2) are inserted,
    then B (3) and C (4) under A; three moves down reach E, which is
    deleted; a move down enters A's first child B while A's index still
    names C; DELETE then follows the index. */
module TreeScenario {
  import opened Common
  import opened TreeModel
  import opened TreeEvents

  const NodeA: Node := NewNode(1)
  const NodeE: Node := NewNode(2)
  const NodeB: Node := NewNode(3)
  const NodeC: Node := NewNode(4)

  /** A after the moves down through B and C: its index names C. */
  const StaleA: Node := Node(true, 1, [NodeB, NodeC], 1)

  const S4: TreeState := TreeState(Node(true, 0, [Node(true, 0, [NodeB, NodeC], 1), NodeE], 0), Some([0]), 0)
  const S5: TreeState := S4.(selected := Some([0, 0]))
  const S6: TreeState := TreeState(Node(true, 0, [StaleA, NodeE], 0), Some([0, 1]), 0)
  const S7: TreeState := TreeState(Node(true, 1, [StaleA, NodeE], 0), Some([1]), 0)
  const S8: TreeState := TreeState(Node(true, 0, [StaleA], 0), Some([0]), 0)

  /** One event of either handler. */
  function Step(st: TreeState, ev: TreeEvent, corrected: bool): (r: TreeState)
    requires StateOk(st) && EventOk(st, ev)
    ensures StateOk(r)
  {
    if corrected then Event(st, ev).0 else EventAsWritten(st, ev).0
  }

  /** A and E at the top level, B and C under A, A selected. */
  function Built(corrected: bool): TreeState
  {
    var s1 := Step(InitState(), InsertParent(Some(NodeA)), corrected);
    var s2 := Step(s1, InsertParent(Some(NodeE)), corrected);
    var s3 := Step(s2, Insert(Some(NodeB)), corrected);
    Step(s3, Insert(Some(NodeC)), corrected)
  }

  /** Three moves down, from A through B and C to E. */
  function Moved(corrected: bool): TreeState
  {
    Step(Step(Step(Built(corrected), Down, corrected), Down, corrected), Down, corrected)
  }

  /** E deleted: A is selected again. */
  function Pruned(corrected: bool): TreeState
  {
    Step(Moved(corrected), Delete, corrected)
  }

  /** A move down into A's first child B. */
  function Entered(corrected: bool): TreeState
  {
    Step(Pruned(corrected), Down, corrected)
  }

  /** The states before and after the last DELETE of the run. */
  function StaleIndexRun(corrected: bool): (TreeState, TreeState)
  {
    (Entered(corrected), Step(Entered(corrected), Delete, corrected))
  }

  lemma ScenarioStatesOk()
    ensures StateOk(S4) && StateOk(S5) && StateOk(S6) && StateOk(S7) && StateOk(S8)
  {
    assert IndexesOk(NodeA) && IndexesOk(NodeB) && IndexesOk(NodeC) && IndexesOk(NodeE);
    assert IndexesOk(Node(true, 0, [NodeB, NodeC], 1)) && IndexesOk(StaleA);
    assert IndexesOk(S4.root) && IndexesOk(S6.root) && IndexesOk(S7.root) && IndexesOk(S8.root);
  }

  const S1: TreeState := TreeState(Node(true, 0, [NodeA], 0), Some([0]), 0)
  const S2: TreeState := TreeState(Node(true, 0, [NodeA, NodeE], 0), Some([0]), 0)
  const S3: TreeState := TreeState(Node(true, 0, [Node(true, 0, [NodeB], 1), NodeE], 0), Some([0]), 0)

  lemma StepToS1(corrected: bool)
    ensures Step(InitState(), InsertParent(Some(NodeA)), corrected) == S1
  {
    assert EventAsWritten(InitState(), InsertParent(Some(NodeA))).0 == S1;
    assert Tracked(S1.root, [0]);
  }

  lemma StepToS2(corrected: bool)
    ensures StateOk(S1) && Step(S1, InsertParent(Some(NodeE)), corrected) == S2
  {
    StepToS1(corrected);
    assert EventAsWritten(S1, InsertParent(Some(NodeE))).0 == S2;
    assert Tracked(S2.root, [0]);
  }

  lemma StepToS3(corrected: bool)
    ensures StateOk(S2) && Step(S2, Insert(Some(NodeB)), corrected) == S3
  {
    StepToS2(corrected);
    assert EventAsWritten(S2, Insert(Some(NodeB))).0 == S3;
    assert Tracked(S3.root, [0]);
  }

  lemma StepToS4(corrected: bool)
    ensures StateOk(S3) && Step(S3, Insert(Some(NodeC)), corrected) == S4
  {
    StepToS3(corrected);
    assert At(S3.root, [0]) == Node(true, 0, [NodeB], 1);
    assert [NodeB] + [NodeC] == [NodeB, NodeC];
    assert EventAsWritten(S3, Insert(Some(NodeC))).0 == S4;
    assert Tracked(S4.root, [0]);
  }

  lemma StepsToS4(corrected: bool)
    ensures Built(corrected) == S4
  {
    StepToS1(corrected);
    StepToS2(corrected);
    StepToS3(corrected);
    StepToS4(corrected);
  }

  lemma StepToS5(corrected: bool)
    ensures StateOk(S4) && Step(S4, Down, corrected) == S5
  {
    ScenarioStatesOk();
    assert At(S4.root, [0]) == Node(true, 0, [NodeB, NodeC], 1);
    assert [0] + [0] == [0, 0];
    assert EventAsWritten(S4, Down).0 == S5;
    assert Tracked(S5.root, [0, 0]);
  }

  lemma StepToS6(corrected: bool)
    ensures StateOk(S5) && Step(S5, Down, corrected) == S6
  {
    ScenarioStatesOk();
    assert At(S5.root, [0, 0]) == NodeB;
    assert LeafPath(S5.root) == [1];
    assert Parent([0, 0]) == [0] && [0][1..] == [];
    assert Replace(S5.root, [0], StaleA) == S6.root;
    assert [0] + [1] == [0, 1];
    assert ParentNext(S5.root, [0, 0]) == (S6.root, [0, 1]);
    assert EventAsWritten(S5, Down).0 == S6;
    assert Tracked(S6.root, [0, 1]);
  }

  lemma StepToS7(corrected: bool)
    ensures StateOk(S6) && Step(S6, Down, corrected) == S7
  {
    ScenarioStatesOk();
    assert At(S6.root, [0, 1]) == NodeC;
    assert LeafPath(S6.root) == [1];
    assert Parent([0, 1]) == [0] && Parent([0]) == [];
    assert At(S6.root, []) == S6.root && Replace(S6.root, [], S7.root) == S7.root;
    assert [] + [1] == [1];
    assert ParentNext(S6.root, [0]) == (S7.root, [1]);
    assert ParentNext(S6.root, [0, 1]) == (S7.root, [1]);
    assert EventAsWritten(S6, Down).0 == S7;
    assert Tracked(S7.root, [1]);
  }

  lemma StepToS8(corrected: bool)
    ensures StateOk(S7) && Step(S7, Delete, corrected) == S8
  {
    ScenarioStatesOk();
    assert Parent([1]) == [] && At(S7.root, []) == S7.root;
    assert [StaleA, NodeE][..1] + [StaleA, NodeE][2..] == [StaleA];
    assert Replace(S7.root, [], S8.root) == S8.root;
    assert [] + [0] == [0];
    assert EventAsWritten(S7, Delete).0 == S8;
    assert Tracked(S8.root, [0]);
  }

  lemma StepsToS8(corrected: bool)
    ensures Pruned(corrected) == S8
  {
    StepsToS4(corrected);
    StepToS5(corrected);
    StepToS6(corrected);
    StepToS7(corrected);
    assert Moved(corrected) == S7;
    StepToS8(corrected);
  }

  /** The states of the last two events of the run, as written. */
  const S9: TreeState := S8.(selected := Some([0, 0]))
  const S10: TreeState := TreeState(Node(true, 0, [Node(true, 0, [NodeB], 1)], 0), Some([0, 0]), 0)

  /** The same states with the indexes tracked. */
  const T9: TreeState := TreeState(Node(true, 0, [Node(true, 0, [NodeB, NodeC], 1)], 0), Some([0, 0]), 0)
  const T10: TreeState := TreeState(Node(true, 0, [Node(true, 0, [NodeC], 1)], 0), Some([0, 0]), 0)

  lemma StepToS9()
    ensures StateOk(S8) && Step(S8, Down, false) == S9
  {
    ScenarioStatesOk();
    assert At(S8.root, [0]) == StaleA;
    assert [0] + [0] == [0, 0];
  }

  lemma StepToS10()
    ensures StateOk(S9) && Step(S9, Delete, false) == S10
  {
    StepToS9();
    assert EventAsWritten(S9, Delete) == DeleteAsWritten(S9);
    assert Parent([0, 0]) == [0] && [0][1..] == [];
    assert At(S9.root, [0]) == StaleA;
    assert Replace(S9.root, [0], Node(true, 0, [NodeB], 1)) == S10.root;
    assert [NodeB, NodeC][..1] + [NodeB, NodeC][2..] == [NodeB];
    assert [0] + [0] == [0, 0];
  }

  lemma StepToT9()
    ensures StateOk(S8) && Step(S8, Down, true) == T9
  {
    StepToS9();
    assert EventAsWritten(S8, Down).0 == S9;
    assert [0][1..] == [] && [0, 0][1..] == [0];
    assert Retrack(StaleA, [0]) == Node(true, 0, [NodeB, NodeC], 1);
    assert Retrack(S8.root, [0, 0]) == T9.root;
  }

  lemma StepToT10()
    ensures StateOk(T9) && Step(T9, Delete, true) == T10
  {
    StepToT9();
    assert EventAsWritten(T9, Delete) == DeleteAsWritten(T9);
    assert Parent([0, 0]) == [0] && [0][1..] == [];
    assert At(T9.root, [0]) == Node(true, 0, [NodeB, NodeC], 1);
    assert Replace(T9.root, [0], Node(true, 0, [NodeC], 1)) == T10.root;
    assert [NodeB, NodeC][..0] + [NodeB, NodeC][1..] == [NodeC];
    assert [0] + [0] == [0, 0];
    assert EventAsWritten(T9, Delete).0 == T10;
    assert Tracked(T10.root, [0, 0]);
  }

  lemma StaleRunStates()
    ensures StaleIndexRun(false) == (S9, S10)
  {
    StepsToS8(false);
    StepToS9();
    StepToS10();
  }

  lemma TrackedRunStates()
    ensures StaleIndexRun(true) == (T9, T10)
  {
    StepsToS8(true);
    StepToT9();
    StepToT10();
  }

  /** The source as written: A's index still says 1 while the selection is
      A's first child B. DELETE takes C out of A's children but destroys B,
      which stays in the tree as A's only child and is selected again. */
  lemma StaleIndexFreesSelected()
    ensures var (before, after) := StaleIndexRun(false);
            before.selected == Some([0, 0]) && ValidPath(before.root, [0, 0])
            && At(before.root, [0]).index == 1 && At(before.root, [0, 0]).data == 3
            && after.selected == Some([0, 0]) && ValidPath(after.root, [0, 0])
            && At(after.root, [0, 0]) == At(before.root, [0, 0])
            && |At(after.root, [0]).children| == 1
  {
    StaleRunStates();
    assert At(S9.root, [0]) == StaleA && At(S10.root, [0]) == Node(true, 0, [NodeB], 1);
  }

  /** The corrected handler on the same events: the move down into B sets
      A's index to 0, so DELETE removes B, the node it destroys, and
      selects C. */
  lemma TrackedIndexRemovesSelected()
    ensures var (before, after) := StaleIndexRun(true);
            before.selected == Some([0, 0]) && ValidPath(before.root, [0, 0])
            && At(before.root, [0]).index == 0 && At(before.root, [0, 0]).data == 3
            && after.selected == Some([0, 0]) && ValidPath(after.root, [0, 0])
            && At(after.root, [0, 0]).data == 4
            && |At(after.root, [0]).children| == 1
  {
    TrackedRunStates();
    assert At(T9.root, [0]) == Node(true, 0, [NodeB, NodeC], 1) && At(T10.root, [0]) == Node(true, 0, [NodeC], 1);
  }
}
