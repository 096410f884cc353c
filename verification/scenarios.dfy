/** Concrete cases of the history route's behaviour, each derived from the
    general model. */
module Scenarios {
  import opened Optional
  import opened Strings
  import opened Routes
  import opened History

  /** Two finished activities and a running one, sorted at `now` = 100000:
      the running one first, then the later finished one. */
  lemma RunningActivitySortsFirst()
    ensures
      var a := ActivityInstance("A", "taskA", Some(90000));
      var b := ActivityInstance("B", "taskB", None);
      var c := ActivityInstance("C", "taskC", Some(95000));
      SortActivities([a, b, c], 100000) == [b, c, a]
  {
    var a := ActivityInstance("A", "taskA", Some(90000));
    var b := ActivityInstance("B", "taskB", None);
    var c := ActivityInstance("C", "taskC", Some(95000));
    var cmp := ActivityOrder(100000);
    assert cmp(a, b) > 0 && cmp(a, c) > 0 && cmp(b, c) < 0;
    assert StableSort.InsertionSort([a], cmp) == [a];
    assert [a, b][..1] == [a] && [a, b, c][..2] == [a, b];
    assert StableSort.InsertionSort([a, b], cmp) == StableSort.Insert([a], b, cmp) == [b, a];
    assert StableSort.Insert([b], c, cmp) == [b, c];
    assert StableSort.Insert([b, a], c, cmp) == [b, c, a];
    assert StableSort.InsertionSort([a, b, c], cmp) == [b, c, a];
  }

  /** Variables of the same name keep their input order. */
  lemma EqualNamesKeepOrder()
    ensures
      var b := VariableInstance("b", "1", None);
      var a1 := VariableInstance("a", "first", None);
      var a2 := VariableInstance("a", "second", None);
      SortVariables([b, a1, a2]) == [a1, a2, b]
  {
    var b := VariableInstance("b", "1", None);
    var a1 := VariableInstance("a", "first", None);
    var a2 := VariableInstance("a", "second", None);
    var cmp := VariableOrder();
    assert cmp(b, a1) > 0 && cmp(b, a2) > 0 && cmp(a1, a2) == 0 by {
      assert Less("a", "b");
      LessAsymmetric("a", "b");
      LessIrreflexive("a");
    }
    assert StableSort.InsertionSort([b, a1], cmp) == [a1, b] by {
      assert StableSort.InsertionSort([b], cmp) == [b];
      assert [b, a1][..1] == [b];
      assert StableSort.InsertionSort([b, a1], cmp) == StableSort.Insert([b], a1, cmp);
    }
    assert StableSort.Insert([a1, b], a2, cmp) == [a1, a2, b] by {
      assert StableSort.Insert([a1], a2, cmp) == [a1, a2];
    }
    assert [b, a1, a2][..2] == [b, a1];
    assert StableSort.InsertionSort([b, a1, a2], cmp) == StableSort.Insert([a1, b], a2, cmp);
  }

  /** Two decisions of one activity: the later one wins. */
  lemma LastDecisionWins()
    ensures
      var ds := [DecisionInstance("d1", Some("x")), DecisionInstance("d2", Some("x"))];
      DecisionByActivity(ds) == map[Some("x") := "d2"]
  {
  }

  lemma IdBeforeQuery()
    ensures ExtractInstanceId("#/history/process-instance/42?tab=variables") == Some("42")
  {
    assert "#/history/process-instance/42?tab=variables" == HistoryLink("42") + "?tab=variables";
    HistoryLinkRoundTrip("42", "?tab=variables");
  }

  /** The runtime view's hash holds no history marker (it has no `h` at
      all), so the history route finds no id in it. */
  lemma NoIdOnRuntimeView()
    ensures ExtractInstanceId("#/process-instance/42/runtime") == None
  {
    var h := "#/process-instance/42/runtime";
    assert 'h' !in h;
    forall k: nat ensures !OccursAt(h, HistoryMarker, k) {
      if k + |HistoryMarker| <= |h| {
        assert h[k + 1] in h;
        assert h[k..k + |HistoryMarker|][1] == h[k + 1];
      }
    }
  }

  /** A history route with an empty id segment yields no id. */
  lemma NoIdWhenEmpty()
    ensures ExtractInstanceId(HistoryLink("")) == None
  {
    var h := HistoryLink("");
    assert h == "#" + HistoryMarker;
    assert h[1..1 + |HistoryMarker|] == HistoryMarker;
    assert h[0] == '#';
    assert FirstOccurrence(h, HistoryMarker, 1);
  }

  /** The first `/runtime` of `/runtime` itself is all of it. */
  lemma ReplaceWholeRuntimeSegment()
    ensures ReplaceFirst(RuntimeSegment, RuntimeSegment, "/") == "/"
  {
    assert FirstOccurrence(RuntimeSegment, RuntimeSegment, 0);
    FindFirstIs(RuntimeSegment, RuntimeSegment, 0);
  }

  /** The toggle on the runtime view of instance 42, with a query. */
  lemma ToggleFromRuntimeView()
    ensures RewriteHash(RuntimePrefix + "/42" + RuntimeSegment + "?tab=variables") == HistoryLink("42") + "/"
  {
    var tail := RuntimeSegment + "?tab=variables";
    assert RewriteHash(RuntimePrefix + "/42" + RuntimeSegment + "?tab=variables") ==
           HistoryLink("42") + ReplaceFirst(TakeUntil(tail, '?'), RuntimeSegment, "/") by {
      assert RuntimePrefix + "/42" + RuntimeSegment + "?tab=variables" == RuntimePrefix + "/" + "42" + tail;
      RewriteRuntimeHash("42", tail);
    }
    assert TakeUntil(tail, '?') == RuntimeSegment by {
      TakeUntilAppend(RuntimeSegment, "?tab=variables", '?');
      assert RuntimeSegment + [] == RuntimeSegment;
    }
    ReplaceWholeRuntimeSegment();
  }

  /** The same toggle on a hash that is already a history route only turns
      `/runtime` into `/`. */
  lemma ToggleFromHistoryRoute()
    ensures RewriteHash(HistoryLink("42") + RuntimeSegment) == HistoryLink("42") + "/"
  {
    RewriteHistoryHash("42", RuntimeSegment);
    assert '?' !in RuntimeSegment;
    TakeUntilAbsent(RuntimeSegment, '?');
    ReplaceWholeRuntimeSegment();
  }

  /** An id that starts with `runtime` loses that part to the `/runtime`
      replacement. */
  lemma RuntimeLikeIdIsCut()
    ensures RewriteHash(RuntimePrefix + "/runtimeX") == HistoryLink("X")
  {
    var path := RuntimePrefix + "/runtimeX";
    TakeUntilAbsent(path, '?');
    assert path[..|RuntimePrefix|] == RuntimePrefix;
    var routed := HistoryPrefix + "/runtimeX";
    assert path[|RuntimePrefix|..] == "/runtimeX";
    forall j: nat | j < |HistoryPrefix| ensures !OccursAt(routed, RuntimeSegment, j) {
      NoRuntimeSegmentInHistoryPrefix("/runtimeX", j);
    }
    assert routed[|HistoryPrefix|..] == RuntimeSegment + "X";
    assert routed[|HistoryPrefix|..|HistoryPrefix| + |RuntimeSegment|] == RuntimeSegment;
    assert FirstOccurrence(routed, RuntimeSegment, |HistoryPrefix|);
    FindFirstIs(routed, RuntimeSegment, |HistoryPrefix|);
    assert routed[..|HistoryPrefix|] == HistoryPrefix;
    assert routed[|HistoryPrefix| + |RuntimeSegment|..] == "X";
  }
}
