/** The unit tests of the interval map, replayed on the model of `assign` as
    written. Each single call is computed through the reference splice
    `Overwrite` (the calls in the tests never meet the same-value collision),
    and each test then states the breakpoints after every call, their
    validity, and every value the test reads back. */
module IntervalMapScenarios {
  import opened SortedMap
  import opened IntervalMaps
  import opened IntervalMapProofs
  import opened AssignProofs
  import opened IntervalMapTheorems

  // ---------------------------------------------------------------------
  // The single calls of `assign` that the tests make
  // ---------------------------------------------------------------------

  /** `assign(1, 3, 'B')` on the empty map (IntervalMap/main.cpp, line 76). */
  lemma Step1()
    ensures Assign(IntervalMap('A', []), 1, 3, 'B')
         == IntervalMap('A', [Entry(1, 'B'), Entry(3, 'A')])
  {
    assert Overwrite(IntervalMap('A', []), 1, 3, 'B') == IntervalMap('A', [Entry(1, 'B'), Entry(3, 'A')]);
    assert EndsAtBase(IntervalMap('A', [])) && !EndCollisionSameValue(IntervalMap('A', []), 1, 3, 'B');
    AssignIsOverwrite(IntervalMap('A', []), 1, 3, 'B');
  }

  /** `assign(4, 20, 'A')` on the empty map (IntervalMap/main.cpp, line 92). */
  lemma Step2()
    ensures Assign(IntervalMap('A', []), 4, 20, 'A')
         == IntervalMap('A', [])
  {
    assert Overwrite(IntervalMap('A', []), 4, 20, 'A') == IntervalMap('A', []);
    assert EndsAtBase(IntervalMap('A', [])) && !EndCollisionSameValue(IntervalMap('A', []), 4, 20, 'A');
    AssignIsOverwrite(IntervalMap('A', []), 4, 20, 'A');
  }

  /** `assign(4, 20, 'B')` on the empty map (IntervalMap/main.cpp, lines 99, 110, 126, 145, 161, 176). */
  lemma Step3()
    ensures Assign(IntervalMap('A', []), 4, 20, 'B')
         == IntervalMap('A', [Entry(4, 'B'), Entry(20, 'A')])
  {
    assert Overwrite(IntervalMap('A', []), 4, 20, 'B') == IntervalMap('A', [Entry(4, 'B'), Entry(20, 'A')]);
    assert EndsAtBase(IntervalMap('A', [])) && !EndCollisionSameValue(IntervalMap('A', []), 4, 20, 'B');
    AssignIsOverwrite(IntervalMap('A', []), 4, 20, 'B');
  }

  /** `assign(30, 40, 'C')` on {4: B, 20: A} (IntervalMap/main.cpp, line 112). */
  lemma Step4()
    ensures Assign(IntervalMap('A', [Entry(4, 'B'), Entry(20, 'A')]), 30, 40, 'C')
         == IntervalMap('A', [Entry(4, 'B'), Entry(20, 'A'), Entry(30, 'C'), Entry(40, 'A')])
  {
    assert Overwrite(IntervalMap('A', [Entry(4, 'B'), Entry(20, 'A')]), 30, 40, 'C') == IntervalMap('A', [Entry(4, 'B'), Entry(20, 'A'), Entry(30, 'C'), Entry(40, 'A')]);
    assert EndsAtBase(IntervalMap('A', [Entry(4, 'B'), Entry(20, 'A')])) && !EndCollisionSameValue(IntervalMap('A', [Entry(4, 'B'), Entry(20, 'A')]), 30, 40, 'C');
    AssignIsOverwrite(IntervalMap('A', [Entry(4, 'B'), Entry(20, 'A')]), 30, 40, 'C');
  }

  /** `assign(15, 40, 'C')` on {4: B, 20: A} (IntervalMap/main.cpp, line 130). */
  lemma Step5()
    ensures Assign(IntervalMap('A', [Entry(4, 'B'), Entry(20, 'A')]), 15, 40, 'C')
         == IntervalMap('A', [Entry(4, 'B'), Entry(15, 'C'), Entry(40, 'A')])
  {
    assert Overwrite(IntervalMap('A', [Entry(4, 'B'), Entry(20, 'A')]), 15, 40, 'C') == IntervalMap('A', [Entry(4, 'B'), Entry(15, 'C'), Entry(40, 'A')]);
    assert EndsAtBase(IntervalMap('A', [Entry(4, 'B'), Entry(20, 'A')])) && !EndCollisionSameValue(IntervalMap('A', [Entry(4, 'B'), Entry(20, 'A')]), 15, 40, 'C');
    AssignIsOverwrite(IntervalMap('A', [Entry(4, 'B'), Entry(20, 'A')]), 15, 40, 'C');
  }

  /** `assign(0, 2, 'C')` on {4: B, 20: A} (IntervalMap/main.cpp, line 147). */
  lemma Step6()
    ensures Assign(IntervalMap('A', [Entry(4, 'B'), Entry(20, 'A')]), 0, 2, 'C')
         == IntervalMap('A', [Entry(0, 'C'), Entry(2, 'A'), Entry(4, 'B'), Entry(20, 'A')])
  {
    assert Overwrite(IntervalMap('A', [Entry(4, 'B'), Entry(20, 'A')]), 0, 2, 'C') == IntervalMap('A', [Entry(0, 'C'), Entry(2, 'A'), Entry(4, 'B'), Entry(20, 'A')]);
    assert EndsAtBase(IntervalMap('A', [Entry(4, 'B'), Entry(20, 'A')])) && !EndCollisionSameValue(IntervalMap('A', [Entry(4, 'B'), Entry(20, 'A')]), 0, 2, 'C');
    AssignIsOverwrite(IntervalMap('A', [Entry(4, 'B'), Entry(20, 'A')]), 0, 2, 'C');
  }

  /** `assign(0, 4, 'C')` on {4: B, 20: A} (IntervalMap/main.cpp, line 163). */
  lemma Step7()
    ensures Assign(IntervalMap('A', [Entry(4, 'B'), Entry(20, 'A')]), 0, 4, 'C')
         == IntervalMap('A', [Entry(0, 'C'), Entry(4, 'B'), Entry(20, 'A')])
  {
    assert Overwrite(IntervalMap('A', [Entry(4, 'B'), Entry(20, 'A')]), 0, 4, 'C') == IntervalMap('A', [Entry(0, 'C'), Entry(4, 'B'), Entry(20, 'A')]);
    assert EndsAtBase(IntervalMap('A', [Entry(4, 'B'), Entry(20, 'A')])) && !EndCollisionSameValue(IntervalMap('A', [Entry(4, 'B'), Entry(20, 'A')]), 0, 4, 'C');
    AssignIsOverwrite(IntervalMap('A', [Entry(4, 'B'), Entry(20, 'A')]), 0, 4, 'C');
  }

  /** `assign(0, 5, 'C')` on {4: B, 20: A} (IntervalMap/main.cpp, line 180). */
  lemma Step8()
    ensures Assign(IntervalMap('A', [Entry(4, 'B'), Entry(20, 'A')]), 0, 5, 'C')
         == IntervalMap('A', [Entry(0, 'C'), Entry(5, 'B'), Entry(20, 'A')])
  {
    assert Overwrite(IntervalMap('A', [Entry(4, 'B'), Entry(20, 'A')]), 0, 5, 'C') == IntervalMap('A', [Entry(0, 'C'), Entry(5, 'B'), Entry(20, 'A')]);
    assert EndsAtBase(IntervalMap('A', [Entry(4, 'B'), Entry(20, 'A')])) && !EndCollisionSameValue(IntervalMap('A', [Entry(4, 'B'), Entry(20, 'A')]), 0, 5, 'C');
    AssignIsOverwrite(IntervalMap('A', [Entry(4, 'B'), Entry(20, 'A')]), 0, 5, 'C');
  }

  /** `assign(-1, 15, 'B')` on the empty map (IntervalMap/main.cpp, line 193). */
  lemma Step9()
    ensures Assign(IntervalMap('A', []), -1, 15, 'B')
         == IntervalMap('A', [Entry(-1, 'B'), Entry(15, 'A')])
  {
    assert Overwrite(IntervalMap('A', []), -1, 15, 'B') == IntervalMap('A', [Entry(-1, 'B'), Entry(15, 'A')]);
    assert EndsAtBase(IntervalMap('A', [])) && !EndCollisionSameValue(IntervalMap('A', []), -1, 15, 'B');
    AssignIsOverwrite(IntervalMap('A', []), -1, 15, 'B');
  }

  /** `assign(6, 10, 'C')` on {-1: B, 15: A} (IntervalMap/main.cpp, line 195). */
  lemma Step10()
    ensures Assign(IntervalMap('A', [Entry(-1, 'B'), Entry(15, 'A')]), 6, 10, 'C')
         == IntervalMap('A', [Entry(-1, 'B'), Entry(6, 'C'), Entry(10, 'B'), Entry(15, 'A')])
  {
    assert Overwrite(IntervalMap('A', [Entry(-1, 'B'), Entry(15, 'A')]), 6, 10, 'C') == IntervalMap('A', [Entry(-1, 'B'), Entry(6, 'C'), Entry(10, 'B'), Entry(15, 'A')]);
    assert EndsAtBase(IntervalMap('A', [Entry(-1, 'B'), Entry(15, 'A')])) && !EndCollisionSameValue(IntervalMap('A', [Entry(-1, 'B'), Entry(15, 'A')]), 6, 10, 'C');
    AssignIsOverwrite(IntervalMap('A', [Entry(-1, 'B'), Entry(15, 'A')]), 6, 10, 'C');
  }

  /** `assign(6, 10, 'B')` on the empty map (IntervalMap/main.cpp, line 208). */
  lemma Step11()
    ensures Assign(IntervalMap('A', []), 6, 10, 'B')
         == IntervalMap('A', [Entry(6, 'B'), Entry(10, 'A')])
  {
    assert Overwrite(IntervalMap('A', []), 6, 10, 'B') == IntervalMap('A', [Entry(6, 'B'), Entry(10, 'A')]);
    assert EndsAtBase(IntervalMap('A', [])) && !EndCollisionSameValue(IntervalMap('A', []), 6, 10, 'B');
    AssignIsOverwrite(IntervalMap('A', []), 6, 10, 'B');
  }

  /** `assign(-1, 15, 'C')` on {6: B, 10: A} (IntervalMap/main.cpp, line 211). */
  lemma Step12()
    ensures Assign(IntervalMap('A', [Entry(6, 'B'), Entry(10, 'A')]), -1, 15, 'C')
         == IntervalMap('A', [Entry(-1, 'C'), Entry(15, 'A')])
  {
    assert Overwrite(IntervalMap('A', [Entry(6, 'B'), Entry(10, 'A')]), -1, 15, 'C') == IntervalMap('A', [Entry(-1, 'C'), Entry(15, 'A')]);
    assert EndsAtBase(IntervalMap('A', [Entry(6, 'B'), Entry(10, 'A')])) && !EndCollisionSameValue(IntervalMap('A', [Entry(6, 'B'), Entry(10, 'A')]), -1, 15, 'C');
    AssignIsOverwrite(IntervalMap('A', [Entry(6, 'B'), Entry(10, 'A')]), -1, 15, 'C');
  }

  /** `assign(-10, 20, 'B')` on the empty map (IntervalMap/main.cpp, lines 223, 236, 251). */
  lemma Step13()
    ensures Assign(IntervalMap('A', []), -10, 20, 'B')
         == IntervalMap('A', [Entry(-10, 'B'), Entry(20, 'A')])
  {
    assert Overwrite(IntervalMap('A', []), -10, 20, 'B') == IntervalMap('A', [Entry(-10, 'B'), Entry(20, 'A')]);
    assert EndsAtBase(IntervalMap('A', [])) && !EndCollisionSameValue(IntervalMap('A', []), -10, 20, 'B');
    AssignIsOverwrite(IntervalMap('A', []), -10, 20, 'B');
  }

  /** `assign(-5, 7, 'B')` on {-10: B, 20: A} (IntervalMap/main.cpp, line 225). */
  lemma Step14()
    ensures Assign(IntervalMap('A', [Entry(-10, 'B'), Entry(20, 'A')]), -5, 7, 'B')
         == IntervalMap('A', [Entry(-10, 'B'), Entry(20, 'A')])
  {
    assert Overwrite(IntervalMap('A', [Entry(-10, 'B'), Entry(20, 'A')]), -5, 7, 'B') == IntervalMap('A', [Entry(-10, 'B'), Entry(20, 'A')]);
    assert EndsAtBase(IntervalMap('A', [Entry(-10, 'B'), Entry(20, 'A')])) && !EndCollisionSameValue(IntervalMap('A', [Entry(-10, 'B'), Entry(20, 'A')]), -5, 7, 'B');
    AssignIsOverwrite(IntervalMap('A', [Entry(-10, 'B'), Entry(20, 'A')]), -5, 7, 'B');
  }

  /** `assign(-5, 10, 'C')` on {-10: B, 20: A} (IntervalMap/main.cpp, lines 238, 253). */
  lemma Step15()
    ensures Assign(IntervalMap('A', [Entry(-10, 'B'), Entry(20, 'A')]), -5, 10, 'C')
         == IntervalMap('A', [Entry(-10, 'B'), Entry(-5, 'C'), Entry(10, 'B'), Entry(20, 'A')])
  {
    assert Overwrite(IntervalMap('A', [Entry(-10, 'B'), Entry(20, 'A')]), -5, 10, 'C') == IntervalMap('A', [Entry(-10, 'B'), Entry(-5, 'C'), Entry(10, 'B'), Entry(20, 'A')]);
    assert EndsAtBase(IntervalMap('A', [Entry(-10, 'B'), Entry(20, 'A')])) && !EndCollisionSameValue(IntervalMap('A', [Entry(-10, 'B'), Entry(20, 'A')]), -5, 10, 'C');
    AssignIsOverwrite(IntervalMap('A', [Entry(-10, 'B'), Entry(20, 'A')]), -5, 10, 'C');
  }

  /** `assign(-5, 10, 'D')` on {-10: B, -5: C, 10: B, 20: A} (IntervalMap/main.cpp, line 240). */
  lemma Step16()
    ensures Assign(IntervalMap('A', [Entry(-10, 'B'), Entry(-5, 'C'), Entry(10, 'B'), Entry(20, 'A')]), -5, 10, 'D')
         == IntervalMap('A', [Entry(-10, 'B'), Entry(-5, 'D'), Entry(10, 'B'), Entry(20, 'A')])
  {
    assert Overwrite(IntervalMap('A', [Entry(-10, 'B'), Entry(-5, 'C'), Entry(10, 'B'), Entry(20, 'A')]), -5, 10, 'D') == IntervalMap('A', [Entry(-10, 'B'), Entry(-5, 'D'), Entry(10, 'B'), Entry(20, 'A')]);
    assert EndsAtBase(IntervalMap('A', [Entry(-10, 'B'), Entry(-5, 'C'), Entry(10, 'B'), Entry(20, 'A')])) && !EndCollisionSameValue(IntervalMap('A', [Entry(-10, 'B'), Entry(-5, 'C'), Entry(10, 'B'), Entry(20, 'A')]), -5, 10, 'D');
    AssignIsOverwrite(IntervalMap('A', [Entry(-10, 'B'), Entry(-5, 'C'), Entry(10, 'B'), Entry(20, 'A')]), -5, 10, 'D');
  }

  /** `assign(-5, 10, 'B')` on {-10: B, -5: C, 10: B, 20: A} (IntervalMap/main.cpp, line 255). */
  lemma Step17()
    ensures Assign(IntervalMap('A', [Entry(-10, 'B'), Entry(-5, 'C'), Entry(10, 'B'), Entry(20, 'A')]), -5, 10, 'B')
         == IntervalMap('A', [Entry(-10, 'B'), Entry(20, 'A')])
  {
    assert Overwrite(IntervalMap('A', [Entry(-10, 'B'), Entry(-5, 'C'), Entry(10, 'B'), Entry(20, 'A')]), -5, 10, 'B') == IntervalMap('A', [Entry(-10, 'B'), Entry(20, 'A')]);
    assert EndsAtBase(IntervalMap('A', [Entry(-10, 'B'), Entry(-5, 'C'), Entry(10, 'B'), Entry(20, 'A')])) && !EndCollisionSameValue(IntervalMap('A', [Entry(-10, 'B'), Entry(-5, 'C'), Entry(10, 'B'), Entry(20, 'A')]), -5, 10, 'B');
    AssignIsOverwrite(IntervalMap('A', [Entry(-10, 'B'), Entry(-5, 'C'), Entry(10, 'B'), Entry(20, 'A')]), -5, 10, 'B');
  }

  /** `assign(5, 10, 'B')` on the empty map (IntervalMap/main.cpp, lines 267, 292). */
  lemma Step18()
    ensures Assign(IntervalMap('A', []), 5, 10, 'B')
         == IntervalMap('A', [Entry(5, 'B'), Entry(10, 'A')])
  {
    assert Overwrite(IntervalMap('A', []), 5, 10, 'B') == IntervalMap('A', [Entry(5, 'B'), Entry(10, 'A')]);
    assert EndsAtBase(IntervalMap('A', [])) && !EndCollisionSameValue(IntervalMap('A', []), 5, 10, 'B');
    AssignIsOverwrite(IntervalMap('A', []), 5, 10, 'B');
  }

  /** `assign(2, 7, 'A')` on {5: B, 10: A} (IntervalMap/main.cpp, line 269). */
  lemma Step19()
    ensures Assign(IntervalMap('A', [Entry(5, 'B'), Entry(10, 'A')]), 2, 7, 'A')
         == IntervalMap('A', [Entry(7, 'B'), Entry(10, 'A')])
  {
    assert Overwrite(IntervalMap('A', [Entry(5, 'B'), Entry(10, 'A')]), 2, 7, 'A') == IntervalMap('A', [Entry(7, 'B'), Entry(10, 'A')]);
    assert EndsAtBase(IntervalMap('A', [Entry(5, 'B'), Entry(10, 'A')])) && !EndCollisionSameValue(IntervalMap('A', [Entry(5, 'B'), Entry(10, 'A')]), 2, 7, 'A');
    AssignIsOverwrite(IntervalMap('A', [Entry(5, 'B'), Entry(10, 'A')]), 2, 7, 'A');
  }

  /** `assign(-5, 10, 'B')` on the empty map (IntervalMap/main.cpp, line 280). */
  lemma Step20()
    ensures Assign(IntervalMap('A', []), -5, 10, 'B')
         == IntervalMap('A', [Entry(-5, 'B'), Entry(10, 'A')])
  {
    assert Overwrite(IntervalMap('A', []), -5, 10, 'B') == IntervalMap('A', [Entry(-5, 'B'), Entry(10, 'A')]);
    assert EndsAtBase(IntervalMap('A', [])) && !EndCollisionSameValue(IntervalMap('A', []), -5, 10, 'B');
    AssignIsOverwrite(IntervalMap('A', []), -5, 10, 'B');
  }

  /** `assign(2, 15, 'A')` on {-5: B, 10: A} (IntervalMap/main.cpp, line 282). */
  lemma Step21()
    ensures Assign(IntervalMap('A', [Entry(-5, 'B'), Entry(10, 'A')]), 2, 15, 'A')
         == IntervalMap('A', [Entry(-5, 'B'), Entry(2, 'A')])
  {
    assert Overwrite(IntervalMap('A', [Entry(-5, 'B'), Entry(10, 'A')]), 2, 15, 'A') == IntervalMap('A', [Entry(-5, 'B'), Entry(2, 'A')]);
    assert EndsAtBase(IntervalMap('A', [Entry(-5, 'B'), Entry(10, 'A')])) && !EndCollisionSameValue(IntervalMap('A', [Entry(-5, 'B'), Entry(10, 'A')]), 2, 15, 'A');
    AssignIsOverwrite(IntervalMap('A', [Entry(-5, 'B'), Entry(10, 'A')]), 2, 15, 'A');
  }

  /** `assign(2, 15, 'A')` on {5: B, 10: A} (IntervalMap/main.cpp, line 294). */
  lemma Step22()
    ensures Assign(IntervalMap('A', [Entry(5, 'B'), Entry(10, 'A')]), 2, 15, 'A')
         == IntervalMap('A', [])
  {
    assert Overwrite(IntervalMap('A', [Entry(5, 'B'), Entry(10, 'A')]), 2, 15, 'A') == IntervalMap('A', []);
    assert EndsAtBase(IntervalMap('A', [Entry(5, 'B'), Entry(10, 'A')])) && !EndCollisionSameValue(IntervalMap('A', [Entry(5, 'B'), Entry(10, 'A')]), 2, 15, 'A');
    AssignIsOverwrite(IntervalMap('A', [Entry(5, 'B'), Entry(10, 'A')]), 2, 15, 'A');
  }

  /** `assign(2, 15, 'B')` on the empty map (IntervalMap/main.cpp, line 304). */
  lemma Step23()
    ensures Assign(IntervalMap('A', []), 2, 15, 'B')
         == IntervalMap('A', [Entry(2, 'B'), Entry(15, 'A')])
  {
    assert Overwrite(IntervalMap('A', []), 2, 15, 'B') == IntervalMap('A', [Entry(2, 'B'), Entry(15, 'A')]);
    assert EndsAtBase(IntervalMap('A', [])) && !EndCollisionSameValue(IntervalMap('A', []), 2, 15, 'B');
    AssignIsOverwrite(IntervalMap('A', []), 2, 15, 'B');
  }

  /** `assign(3, 13, 'B')` on {2: B, 15: A} (IntervalMap/main.cpp, line 306). */
  lemma Step24()
    ensures Assign(IntervalMap('A', [Entry(2, 'B'), Entry(15, 'A')]), 3, 13, 'B')
         == IntervalMap('A', [Entry(2, 'B'), Entry(15, 'A')])
  {
    assert Overwrite(IntervalMap('A', [Entry(2, 'B'), Entry(15, 'A')]), 3, 13, 'B') == IntervalMap('A', [Entry(2, 'B'), Entry(15, 'A')]);
    assert EndsAtBase(IntervalMap('A', [Entry(2, 'B'), Entry(15, 'A')])) && !EndCollisionSameValue(IntervalMap('A', [Entry(2, 'B'), Entry(15, 'A')]), 3, 13, 'B');
    AssignIsOverwrite(IntervalMap('A', [Entry(2, 'B'), Entry(15, 'A')]), 3, 13, 'B');
  }

  // ---------------------------------------------------------------------
  // The maps the calls produce: canonical, and the function each describes
  // ---------------------------------------------------------------------

  /** {1: B, 3: A} is in canonical form and describes the step function below. */
  lemma Result1()
    ensures Valid(IntervalMap('A', [Entry(1, 'B'), Entry(3, 'A')]))
    ensures forall k :: Lookup(IntervalMap('A', [Entry(1, 'B'), Entry(3, 'A')]), k)
                    == if k < 1 then 'A' else if k < 3 then 'B' else 'A'
  {
  }

  /** the empty map is in canonical form and describes the step function below. */
  lemma Result2()
    ensures Valid(IntervalMap('A', []))
    ensures forall k :: Lookup(IntervalMap('A', []), k)
                    == 'A'
  {
  }

  /** {4: B, 20: A} is in canonical form and describes the step function below. */
  lemma Result3()
    ensures Valid(IntervalMap('A', [Entry(4, 'B'), Entry(20, 'A')]))
    ensures forall k :: Lookup(IntervalMap('A', [Entry(4, 'B'), Entry(20, 'A')]), k)
                    == if k < 4 then 'A' else if k < 20 then 'B' else 'A'
  {
  }

  /** {4: B, 20: A, 30: C, 40: A} is in canonical form and describes the step function below. */
  lemma Result4()
    ensures Valid(IntervalMap('A', [Entry(4, 'B'), Entry(20, 'A'), Entry(30, 'C'), Entry(40, 'A')]))
    ensures forall k :: Lookup(IntervalMap('A', [Entry(4, 'B'), Entry(20, 'A'), Entry(30, 'C'), Entry(40, 'A')]), k)
                    == if k < 4 then 'A' else if k < 20 then 'B' else if k < 30 then 'A' else if k < 40 then 'C' else 'A'
  {
  }

  /** {4: B, 15: C, 40: A} is in canonical form and describes the step function below. */
  lemma Result5()
    ensures Valid(IntervalMap('A', [Entry(4, 'B'), Entry(15, 'C'), Entry(40, 'A')]))
    ensures forall k :: Lookup(IntervalMap('A', [Entry(4, 'B'), Entry(15, 'C'), Entry(40, 'A')]), k)
                    == if k < 4 then 'A' else if k < 15 then 'B' else if k < 40 then 'C' else 'A'
  {
  }

  /** {0: C, 2: A, 4: B, 20: A} is in canonical form and describes the step function below. */
  lemma Result6()
    ensures Valid(IntervalMap('A', [Entry(0, 'C'), Entry(2, 'A'), Entry(4, 'B'), Entry(20, 'A')]))
    ensures forall k :: Lookup(IntervalMap('A', [Entry(0, 'C'), Entry(2, 'A'), Entry(4, 'B'), Entry(20, 'A')]), k)
                    == if k < 0 then 'A' else if k < 2 then 'C' else if k < 4 then 'A' else if k < 20 then 'B' else 'A'
  {
  }

  /** {0: C, 4: B, 20: A} is in canonical form and describes the step function below. */
  lemma Result7()
    ensures Valid(IntervalMap('A', [Entry(0, 'C'), Entry(4, 'B'), Entry(20, 'A')]))
    ensures forall k :: Lookup(IntervalMap('A', [Entry(0, 'C'), Entry(4, 'B'), Entry(20, 'A')]), k)
                    == if k < 0 then 'A' else if k < 4 then 'C' else if k < 20 then 'B' else 'A'
  {
  }

  /** {0: C, 5: B, 20: A} is in canonical form and describes the step function below. */
  lemma Result8()
    ensures Valid(IntervalMap('A', [Entry(0, 'C'), Entry(5, 'B'), Entry(20, 'A')]))
    ensures forall k :: Lookup(IntervalMap('A', [Entry(0, 'C'), Entry(5, 'B'), Entry(20, 'A')]), k)
                    == if k < 0 then 'A' else if k < 5 then 'C' else if k < 20 then 'B' else 'A'
  {
  }

  /** {-1: B, 15: A} is in canonical form and describes the step function below. */
  lemma Result9()
    ensures Valid(IntervalMap('A', [Entry(-1, 'B'), Entry(15, 'A')]))
    ensures forall k :: Lookup(IntervalMap('A', [Entry(-1, 'B'), Entry(15, 'A')]), k)
                    == if k < -1 then 'A' else if k < 15 then 'B' else 'A'
  {
  }

  /** {-1: B, 6: C, 10: B, 15: A} is in canonical form and describes the step function below. */
  lemma Result10()
    ensures Valid(IntervalMap('A', [Entry(-1, 'B'), Entry(6, 'C'), Entry(10, 'B'), Entry(15, 'A')]))
    ensures forall k :: Lookup(IntervalMap('A', [Entry(-1, 'B'), Entry(6, 'C'), Entry(10, 'B'), Entry(15, 'A')]), k)
                    == if k < -1 then 'A' else if k < 6 then 'B' else if k < 10 then 'C' else if k < 15 then 'B' else 'A'
  {
  }

  /** {6: B, 10: A} is in canonical form and describes the step function below. */
  lemma Result11()
    ensures Valid(IntervalMap('A', [Entry(6, 'B'), Entry(10, 'A')]))
    ensures forall k :: Lookup(IntervalMap('A', [Entry(6, 'B'), Entry(10, 'A')]), k)
                    == if k < 6 then 'A' else if k < 10 then 'B' else 'A'
  {
  }

  /** {-1: C, 15: A} is in canonical form and describes the step function below. */
  lemma Result12()
    ensures Valid(IntervalMap('A', [Entry(-1, 'C'), Entry(15, 'A')]))
    ensures forall k :: Lookup(IntervalMap('A', [Entry(-1, 'C'), Entry(15, 'A')]), k)
                    == if k < -1 then 'A' else if k < 15 then 'C' else 'A'
  {
  }

  /** {-10: B, 20: A} is in canonical form and describes the step function below. */
  lemma Result13()
    ensures Valid(IntervalMap('A', [Entry(-10, 'B'), Entry(20, 'A')]))
    ensures forall k :: Lookup(IntervalMap('A', [Entry(-10, 'B'), Entry(20, 'A')]), k)
                    == if k < -10 then 'A' else if k < 20 then 'B' else 'A'
  {
  }

  /** {-10: B, -5: C, 10: B, 20: A} is in canonical form and describes the step function below. */
  lemma Result14()
    ensures Valid(IntervalMap('A', [Entry(-10, 'B'), Entry(-5, 'C'), Entry(10, 'B'), Entry(20, 'A')]))
    ensures forall k :: Lookup(IntervalMap('A', [Entry(-10, 'B'), Entry(-5, 'C'), Entry(10, 'B'), Entry(20, 'A')]), k)
                    == if k < -10 then 'A' else if k < -5 then 'B' else if k < 10 then 'C' else if k < 20 then 'B' else 'A'
  {
  }

  /** {-10: B, -5: D, 10: B, 20: A} is in canonical form and describes the step function below. */
  lemma Result15()
    ensures Valid(IntervalMap('A', [Entry(-10, 'B'), Entry(-5, 'D'), Entry(10, 'B'), Entry(20, 'A')]))
    ensures forall k :: Lookup(IntervalMap('A', [Entry(-10, 'B'), Entry(-5, 'D'), Entry(10, 'B'), Entry(20, 'A')]), k)
                    == if k < -10 then 'A' else if k < -5 then 'B' else if k < 10 then 'D' else if k < 20 then 'B' else 'A'
  {
  }

  /** {5: B, 10: A} is in canonical form and describes the step function below. */
  lemma Result16()
    ensures Valid(IntervalMap('A', [Entry(5, 'B'), Entry(10, 'A')]))
    ensures forall k :: Lookup(IntervalMap('A', [Entry(5, 'B'), Entry(10, 'A')]), k)
                    == if k < 5 then 'A' else if k < 10 then 'B' else 'A'
  {
  }

  /** {7: B, 10: A} is in canonical form and describes the step function below. */
  lemma Result17()
    ensures Valid(IntervalMap('A', [Entry(7, 'B'), Entry(10, 'A')]))
    ensures forall k :: Lookup(IntervalMap('A', [Entry(7, 'B'), Entry(10, 'A')]), k)
                    == if k < 7 then 'A' else if k < 10 then 'B' else 'A'
  {
  }

  /** {-5: B, 10: A} is in canonical form and describes the step function below. */
  lemma Result18()
    ensures Valid(IntervalMap('A', [Entry(-5, 'B'), Entry(10, 'A')]))
    ensures forall k :: Lookup(IntervalMap('A', [Entry(-5, 'B'), Entry(10, 'A')]), k)
                    == if k < -5 then 'A' else if k < 10 then 'B' else 'A'
  {
  }

  /** {-5: B, 2: A} is in canonical form and describes the step function below. */
  lemma Result19()
    ensures Valid(IntervalMap('A', [Entry(-5, 'B'), Entry(2, 'A')]))
    ensures forall k :: Lookup(IntervalMap('A', [Entry(-5, 'B'), Entry(2, 'A')]), k)
                    == if k < -5 then 'A' else if k < 2 then 'B' else 'A'
  {
  }

  /** {2: B, 15: A} is in canonical form and describes the step function below. */
  lemma Result20()
    ensures Valid(IntervalMap('A', [Entry(2, 'B'), Entry(15, 'A')]))
    ensures forall k :: Lookup(IntervalMap('A', [Entry(2, 'B'), Entry(15, 'A')]), k)
                    == if k < 2 then 'A' else if k < 15 then 'B' else 'A'
  {
  }

  // ---------------------------------------------------------------------
  // The tests
  // ---------------------------------------------------------------------

  /** The "Empty map" test (IntervalMap/main.cpp, lines 64-71). */
  lemma EmptyMap()
    ensures Valid(Empty('A'))
            && Lookup(Empty('A'), -99) == 'A'
            && Lookup(Empty('A'), 0) == 'A'
            && Lookup(Empty('A'), 99) == 'A'
  {
  }

  /** The "Example map" test (IntervalMap/main.cpp, lines 73-86). */
  lemma ExampleMap()
    ensures var im1 := Assign(Empty('A'), 1, 3, 'B');
            && im1 == IntervalMap('A', [Entry(1, 'B'), Entry(3, 'A')])
            && Valid(im1)
            && Lookup(im1, -2) == 'A'
            && Lookup(im1, -1) == 'A'
            && Lookup(im1, 0) == 'A'
            && Lookup(im1, 1) == 'B'
            && Lookup(im1, 2) == 'B'
            && Lookup(im1, 3) == 'A'
            && Lookup(im1, 4) == 'A'
            && Lookup(im1, 5) == 'A'
  {
    Step1();
    Result1();
  }

  /** The "Same as default value into empty map" test (IntervalMap/main.cpp, lines 88-94). */
  lemma SameAsDefaultIntoEmpty()
    ensures var im1 := Assign(Empty('A'), 4, 20, 'A');
            && im1 == IntervalMap('A', [])
            && Valid(im1)
  {
    Step2();
    Result2();
  }

  /** The "Assign into empty map" test (IntervalMap/main.cpp, lines 96-105). */
  lemma AssignIntoEmpty()
    ensures var im1 := Assign(Empty('A'), 4, 20, 'B');
            && im1 == IntervalMap('A', [Entry(4, 'B'), Entry(20, 'A')])
            && Valid(im1)
            && Lookup(im1, 3) == 'A'
            && Lookup(im1, 4) == 'B'
            && Lookup(im1, 19) == 'B'
            && Lookup(im1, 20) == 'A'
  {
    Step3();
    Result3();
  }

  /** The "Assign after" test (IntervalMap/main.cpp, lines 107-121). */
  lemma AssignAfter()
    ensures var im1 := Assign(Empty('A'), 4, 20, 'B');
            var im2 := Assign(im1, 30, 40, 'C');
            && im1 == IntervalMap('A', [Entry(4, 'B'), Entry(20, 'A')])
            && Valid(im1)
            && im2 == IntervalMap('A', [Entry(4, 'B'), Entry(20, 'A'), Entry(30, 'C'), Entry(40, 'A')])
            && Valid(im2)
            && Lookup(im2, 3) == 'A'
            && Lookup(im2, 4) == 'B'
            && Lookup(im2, 19) == 'B'
            && Lookup(im2, 20) == 'A'
            && Lookup(im2, 30) == 'C'
            && Lookup(im2, 39) == 'C'
            && Lookup(im2, 40) == 'A'
  {
    Step3();
    Step4();
    Result3();
    Result4();
  }

  /** The "Assign after spilling into existing" test (IntervalMap/main.cpp, lines 123-140). */
  lemma AssignAfterSpilling()
    ensures var im1 := Assign(Empty('A'), 4, 20, 'B');
            var im2 := Assign(im1, 15, 40, 'C');
            && im1 == IntervalMap('A', [Entry(4, 'B'), Entry(20, 'A')])
            && Valid(im1)
            && Lookup(im1, 19) == 'B'
            && Lookup(im1, 20) == 'A'
            && im2 == IntervalMap('A', [Entry(4, 'B'), Entry(15, 'C'), Entry(40, 'A')])
            && Valid(im2)
            && Lookup(im2, 3) == 'A'
            && Lookup(im2, 4) == 'B'
            && Lookup(im2, 14) == 'B'
            && Lookup(im2, 15) == 'C'
            && Lookup(im2, 19) == 'C'
            && Lookup(im2, 20) == 'C'
            && Lookup(im2, 39) == 'C'
            && Lookup(im2, 40) == 'A'
  {
    Step3();
    Step5();
    Result3();
    Result5();
  }

  /** The "Assign before" test (IntervalMap/main.cpp, lines 142-156). */
  lemma AssignBefore()
    ensures var im1 := Assign(Empty('A'), 4, 20, 'B');
            var im2 := Assign(im1, 0, 2, 'C');
            && im1 == IntervalMap('A', [Entry(4, 'B'), Entry(20, 'A')])
            && Valid(im1)
            && im2 == IntervalMap('A', [Entry(0, 'C'), Entry(2, 'A'), Entry(4, 'B'), Entry(20, 'A')])
            && Valid(im2)
            && Lookup(im2, -1) == 'A'
            && Lookup(im2, 1) == 'C'
            && Lookup(im2, 2) == 'A'
            && Lookup(im2, 3) == 'A'
            && Lookup(im2, 4) == 'B'
            && Lookup(im2, 19) == 'B'
            && Lookup(im2, 20) == 'A'
  {
    Step3();
    Step6();
    Result3();
    Result6();
  }

  /** The "Assign before right at edge" test (IntervalMap/main.cpp, lines 158-171). */
  lemma AssignBeforeAtEdge()
    ensures var im1 := Assign(Empty('A'), 4, 20, 'B');
            var im2 := Assign(im1, 0, 4, 'C');
            && im1 == IntervalMap('A', [Entry(4, 'B'), Entry(20, 'A')])
            && Valid(im1)
            && im2 == IntervalMap('A', [Entry(0, 'C'), Entry(4, 'B'), Entry(20, 'A')])
            && Valid(im2)
            && Lookup(im2, -1) == 'A'
            && Lookup(im2, 2) == 'C'
            && Lookup(im2, 3) == 'C'
            && Lookup(im2, 4) == 'B'
            && Lookup(im2, 19) == 'B'
            && Lookup(im2, 20) == 'A'
  {
    Step3();
    Step7();
    Result3();
    Result7();
  }

  /** The "Assign before spilling into existing" test (IntervalMap/main.cpp, lines 173-188). */
  lemma AssignBeforeSpilling()
    ensures var im1 := Assign(Empty('A'), 4, 20, 'B');
            var im2 := Assign(im1, 0, 5, 'C');
            && im1 == IntervalMap('A', [Entry(4, 'B'), Entry(20, 'A')])
            && Valid(im1)
            && Lookup(im1, 3) == 'A'
            && Lookup(im1, 4) == 'B'
            && im2 == IntervalMap('A', [Entry(0, 'C'), Entry(5, 'B'), Entry(20, 'A')])
            && Valid(im2)
            && Lookup(im2, -1) == 'A'
            && Lookup(im2, 3) == 'C'
            && Lookup(im2, 4) == 'C'
            && Lookup(im2, 5) == 'B'
            && Lookup(im2, 19) == 'B'
            && Lookup(im2, 20) == 'A'
  {
    Step3();
    Step8();
    Result3();
    Result8();
  }

  /** The "Assign into existing" test (IntervalMap/main.cpp, lines 190-203). */
  lemma AssignIntoExisting()
    ensures var im1 := Assign(Empty('A'), -1, 15, 'B');
            var im2 := Assign(im1, 6, 10, 'C');
            && im1 == IntervalMap('A', [Entry(-1, 'B'), Entry(15, 'A')])
            && Valid(im1)
            && im2 == IntervalMap('A', [Entry(-1, 'B'), Entry(6, 'C'), Entry(10, 'B'), Entry(15, 'A')])
            && Valid(im2)
            && Lookup(im2, 5) == 'B'
            && Lookup(im2, 6) == 'C'
            && Lookup(im2, 9) == 'C'
            && Lookup(im2, 10) == 'B'
            && Lookup(im2, 14) == 'B'
            && Lookup(im2, 15) == 'A'
  {
    Step9();
    Step10();
    Result9();
    Result10();
  }

  /** The "Assign around smaller" test (IntervalMap/main.cpp, lines 205-218). */
  lemma AssignAroundSmaller()
    ensures var im1 := Assign(Empty('A'), 6, 10, 'B');
            var im2 := Assign(im1, -1, 15, 'C');
            && im1 == IntervalMap('A', [Entry(6, 'B'), Entry(10, 'A')])
            && Valid(im1)
            && Lookup(im1, 8) == 'B'
            && im2 == IntervalMap('A', [Entry(-1, 'C'), Entry(15, 'A')])
            && Valid(im2)
            && Lookup(im2, -2) == 'A'
            && Lookup(im2, -1) == 'C'
            && Lookup(im2, 8) == 'C'
            && Lookup(im2, 14) == 'C'
            && Lookup(im2, 15) == 'A'
  {
    Step11();
    Step12();
    Result11();
    Result12();
  }

  /** The "Assign inside larger with same value" test (IntervalMap/main.cpp, lines 220-231). */
  lemma AssignInsideLargerSameValue()
    ensures var im1 := Assign(Empty('A'), -10, 20, 'B');
            var im2 := Assign(im1, -5, 7, 'B');
            && im1 == IntervalMap('A', [Entry(-10, 'B'), Entry(20, 'A')])
            && Valid(im1)
            && im2 == IntervalMap('A', [Entry(-10, 'B'), Entry(20, 'A')])
            && Valid(im2)
            && Lookup(im2, -11) == 'A'
            && Lookup(im2, -10) == 'B'
            && Lookup(im2, 19) == 'B'
            && Lookup(im2, 20) == 'A'
  {
    Step13();
    Step14();
    Result13();
  }

  /** The "Assign on top of other" test (IntervalMap/main.cpp, lines 233-246). */
  lemma AssignOnTopOfOther()
    ensures var im1 := Assign(Empty('A'), -10, 20, 'B');
            var im2 := Assign(im1, -5, 10, 'C');
            var im3 := Assign(im2, -5, 10, 'D');
            && im1 == IntervalMap('A', [Entry(-10, 'B'), Entry(20, 'A')])
            && Valid(im1)
            && im2 == IntervalMap('A', [Entry(-10, 'B'), Entry(-5, 'C'), Entry(10, 'B'), Entry(20, 'A')])
            && Valid(im2)
            && im3 == IntervalMap('A', [Entry(-10, 'B'), Entry(-5, 'D'), Entry(10, 'B'), Entry(20, 'A')])
            && Valid(im3)
            && Lookup(im3, -5) == 'D'
            && Lookup(im3, 9) == 'D'
            && Lookup(im3, 10) == 'B'
            && Lookup(im3, 20) == 'A'
  {
    Step13();
    Step15();
    Step16();
    Result13();
    Result14();
    Result15();
  }

  /** The "Set inner to same as outer" test (IntervalMap/main.cpp, lines 248-262). */
  lemma SetInnerToOuter()
    ensures var im1 := Assign(Empty('A'), -10, 20, 'B');
            var im2 := Assign(im1, -5, 10, 'C');
            var im3 := Assign(im2, -5, 10, 'B');
            && im1 == IntervalMap('A', [Entry(-10, 'B'), Entry(20, 'A')])
            && Valid(im1)
            && im2 == IntervalMap('A', [Entry(-10, 'B'), Entry(-5, 'C'), Entry(10, 'B'), Entry(20, 'A')])
            && Valid(im2)
            && im3 == IntervalMap('A', [Entry(-10, 'B'), Entry(20, 'A')])
            && Valid(im3)
            && Lookup(im3, -11) == 'A'
            && Lookup(im3, -5) == 'B'
            && Lookup(im3, 9) == 'B'
            && Lookup(im3, 10) == 'B'
            && Lookup(im3, 20) == 'A'
  {
    Step13();
    Step15();
    Step17();
    Result13();
    Result14();
  }

  /** The "Assign initial value at start of non initial" test (IntervalMap/main.cpp, lines 264-275). */
  lemma InitialValueAtStart()
    ensures var im1 := Assign(Empty('A'), 5, 10, 'B');
            var im2 := Assign(im1, 2, 7, 'A');
            && im1 == IntervalMap('A', [Entry(5, 'B'), Entry(10, 'A')])
            && Valid(im1)
            && im2 == IntervalMap('A', [Entry(7, 'B'), Entry(10, 'A')])
            && Valid(im2)
            && Lookup(im2, 5) == 'A'
            && Lookup(im2, 7) == 'B'
            && Lookup(im2, 9) == 'B'
            && Lookup(im2, 10) == 'A'
  {
    Step18();
    Step19();
    Result16();
    Result17();
  }

  /** The "Assign initial value at end of non initial" test (IntervalMap/main.cpp, lines 277-287). */
  lemma InitialValueAtEnd()
    ensures var im1 := Assign(Empty('A'), -5, 10, 'B');
            var im2 := Assign(im1, 2, 15, 'A');
            && im1 == IntervalMap('A', [Entry(-5, 'B'), Entry(10, 'A')])
            && Valid(im1)
            && im2 == IntervalMap('A', [Entry(-5, 'B'), Entry(2, 'A')])
            && Valid(im2)
            && Lookup(im2, -6) == 'A'
            && Lookup(im2, -5) == 'B'
            && Lookup(im2, 2) == 'A'
  {
    Step20();
    Step21();
    Result18();
    Result19();
  }

  /** The "Assign outer with same as initial" test (IntervalMap/main.cpp, lines 289-299). */
  lemma OuterSameAsInitial()
    ensures var im1 := Assign(Empty('A'), 5, 10, 'B');
            var im2 := Assign(im1, 2, 15, 'A');
            && im1 == IntervalMap('A', [Entry(5, 'B'), Entry(10, 'A')])
            && Valid(im1)
            && im2 == IntervalMap('A', [])
            && Valid(im2)
            && Lookup(im2, -6) == 'A'
            && Lookup(im2, -5) == 'A'
            && Lookup(im2, 2) == 'A'
  {
    Step18();
    Step22();
    Result16();
    Result2();
  }

  /** The "Redundant assign" test (IntervalMap/main.cpp, lines 301-312). */
  lemma RedundantAssign()
    ensures var im1 := Assign(Empty('A'), 2, 15, 'B');
            var im2 := Assign(im1, 3, 13, 'B');
            && im1 == IntervalMap('A', [Entry(2, 'B'), Entry(15, 'A')])
            && Valid(im1)
            && im2 == IntervalMap('A', [Entry(2, 'B'), Entry(15, 'A')])
            && Valid(im2)
            && Lookup(im2, 1) == 'A'
            && Lookup(im2, 2) == 'B'
            && Lookup(im2, 14) == 'B'
            && Lookup(im2, 15) == 'A'
  {
    Step23();
    Step24();
    Result20();
  }

  // ---------------------------------------------------------------------
  // The redundant breakpoint left by the end-collision shortcut
  // ---------------------------------------------------------------------

  /** `assign(0, 5, 'B')` on {5: B, 10: A} as written: nothing lies in
      `[0, 5)`, the breakpoint at 5 already holds 'B', and the shortcut only
      adds the breakpoint at 0. */
  lemma CollisionStep()
    ensures EndCollisionSameValue(IntervalMap('A', [Entry(5, 'B'), Entry(10, 'A')]), 0, 5, 'B')
    ensures Assign(IntervalMap('A', [Entry(5, 'B'), Entry(10, 'A')]), 0, 5, 'B')
         == IntervalMap('A', [Entry(0, 'B'), Entry(5, 'B'), Entry(10, 'A')])
  {
    assert EndCollisionSameValue(IntervalMap('A', [Entry(5, 'B'), Entry(10, 'A')]), 0, 5, 'B');
    assert Emplace([Entry(5, 'B'), Entry(10, 'A')], 0, 'B') == [Entry(0, 'B'), Entry(5, 'B'), Entry(10, 'A')];
    AssignSameValueCollision(IntervalMap('A', [Entry(5, 'B'), Entry(10, 'A')]), 0, 5, 'B');
  }

  /** Repeating that call on its own result takes the general path, which
      erases the redundant breakpoint at 5. */
  lemma CollisionRepeatStep()
    ensures Assign(IntervalMap('A', [Entry(0, 'B'), Entry(5, 'B'), Entry(10, 'A')]), 0, 5, 'B')
         == IntervalMap('A', [Entry(0, 'B'), Entry(10, 'A')])
  {
    assert Overwrite(IntervalMap('A', [Entry(0, 'B'), Entry(5, 'B'), Entry(10, 'A')]), 0, 5, 'B')
        == IntervalMap('A', [Entry(0, 'B'), Entry(10, 'A')]);
    assert EndsAtBase(IntervalMap('A', [Entry(0, 'B'), Entry(5, 'B'), Entry(10, 'A')]))
        && !EndCollisionSameValue(IntervalMap('A', [Entry(0, 'B'), Entry(5, 'B'), Entry(10, 'A')]), 0, 5, 'B');
    AssignIsOverwrite(IntervalMap('A', [Entry(0, 'B'), Entry(5, 'B'), Entry(10, 'A')]), 0, 5, 'B');
  }

  /** {0: B, 5: B, 10: A} is not in canonical form, and without the
      breakpoint at 5 it describes the same function. */
  lemma RedundantResult()
    ensures !Valid(IntervalMap('A', [Entry(0, 'B'), Entry(5, 'B'), Entry(10, 'A')]))
    ensures forall k :: Lookup(IntervalMap('A', [Entry(0, 'B'), Entry(10, 'A')]), k)
                     == Lookup(IntervalMap('A', [Entry(0, 'B'), Entry(5, 'B'), Entry(10, 'A')]), k)
  {
    forall k ensures Lookup(IntervalMap('A', [Entry(0, 'B'), Entry(10, 'A')]), k)
                  == Lookup(IntervalMap('A', [Entry(0, 'B'), Entry(5, 'B'), Entry(10, 'A')]), k)
    {
      RedundantLookup('A', [Entry(0, 'B')], Entry(5, 'B'), [Entry(10, 'A')], k);
    }
  }

  /** Two calls of `assign` as written, from the initial map: the second
      leaves the neighbouring breakpoints 0 and 5 both holding 'B', so the
      result is not in canonical form, and repeating the second call changes
      the map although it changes no lookup. */
  lemma RedundantBreakpoint()
    ensures var im1 := Assign(Empty('A'), 5, 10, 'B');
            var im2 := Assign(im1, 0, 5, 'B');
            var im3 := Assign(im2, 0, 5, 'B');
            && im2 == IntervalMap('A', [Entry(0, 'B'), Entry(5, 'B'), Entry(10, 'A')])
            && !Valid(im2)
            && im3 == IntervalMap('A', [Entry(0, 'B'), Entry(10, 'A')])
            && im3 != im2
            && (forall k :: Lookup(im3, k) == Lookup(im2, k))
  {
    Step18();
    CollisionStep();
    CollisionRepeatStep();
    RedundantResult();
  }

  /** The corrected `assign(5, 10, 'B')` on the initial map. */
  lemma CorrectedFirstStep()
    ensures AssignCanonical(IntervalMap('A', []), 5, 10, 'B')
         == IntervalMap('A', [Entry(5, 'B'), Entry(10, 'A')])
  {
    assert Overwrite(IntervalMap('A', []), 5, 10, 'B') == IntervalMap('A', [Entry(5, 'B'), Entry(10, 'A')]);
    AssignCanonicalIsOverwrite(IntervalMap('A', []), 5, 10, 'B');
  }

  /** The corrected `assign(0, 5, 'B')` on {5: B, 10: A} takes the general
      path and erases the breakpoint at 5. */
  lemma CorrectedSecondStep()
    ensures AssignCanonical(IntervalMap('A', [Entry(5, 'B'), Entry(10, 'A')]), 0, 5, 'B')
         == IntervalMap('A', [Entry(0, 'B'), Entry(10, 'A')])
  {
    assert Overwrite(IntervalMap('A', [Entry(5, 'B'), Entry(10, 'A')]), 0, 5, 'B')
        == IntervalMap('A', [Entry(0, 'B'), Entry(10, 'A')]);
    assert EndsAtBase(IntervalMap('A', [Entry(5, 'B'), Entry(10, 'A')]));
    AssignCanonicalIsOverwrite(IntervalMap('A', [Entry(5, 'B'), Entry(10, 'A')]), 0, 5, 'B');
  }

  /** The corrected `assign` on the same calls keeps the map canonical, and
      repeating the second call leaves it unchanged. */
  lemma RedundantBreakpointCorrected()
    ensures var im1 := AssignCanonical(Empty('A'), 5, 10, 'B');
            var im2 := AssignCanonical(im1, 0, 5, 'B');
            && im1 == IntervalMap('A', [Entry(5, 'B'), Entry(10, 'A')])
            && im2 == IntervalMap('A', [Entry(0, 'B'), Entry(10, 'A')])
            && Valid(im2)
            && AssignCanonical(im2, 0, 5, 'B') == im2
  {
    CorrectedFirstStep();
    CorrectedSecondStep();
    Result16();
    AssignCanonicalPreservesValid(IntervalMap('A', [Entry(5, 'B'), Entry(10, 'A')]), 0, 5, 'B');
    AssignCanonicalIdempotent(IntervalMap('A', [Entry(5, 'B'), Entry(10, 'A')]), 0, 5, 'B');
  }
}
