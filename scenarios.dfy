/**
 * The unit tests of src/bounded_set.rs and the inspection test of
 * src/hpv/test_join.rs, restated against the model: each assertion is one of
 * the tests' expectations, proved from the contracts alone.
 */
module Scenarios {
  import opened Collections
  import opened BoundedSet
  import opened Hpv

  const TestElem: int := 1

  method InitShouldPassInitialState()
  {
    var s := new SetWithCapacity.Single(1, TestElem);
    assert |s.wraps| == 1;
  }

  method IsFullWhenCapacityIsSize()
  {
    var empty := new SetWithCapacity<int>.New(0);
    assert empty.IsFull();
    var roomy := new SetWithCapacity<int>.New(1);
    assert !roomy.IsFull();
  }

  method EmptyRandomElement()
  {
    var s := new SetWithCapacity<int>.New(1);
    var r := s.SampleOne();
    assert r.None?;
  }

  method SingletonRandomElement()
  {
    var s := new SetWithCapacity.Single(1, TestElem);
    var r := s.SampleOne();
    assert r == Some(TestElem);
  }

  method EmptySample()
  {
    var s := new SetWithCapacity<int>.New(1);
    var sample := s.Sample(10);
    assert sample == {};
  }

  method BoundedSample()
  {
    var s := new SetWithCapacity.Single(1, TestElem);
    var sample := s.Sample(0);
    assert sample == {};
  }

  method MaxSample()
  {
    var s := new SetWithCapacity.Single(1, TestElem);
    var sample := s.Sample(10);
    assert |sample| == 1;
    assert TestElem in sample;
  }

  method ContainsAfterInit()
  {
    var s := new SetWithCapacity.Init(1, {TestElem});
    assert s.Contains(TestElem);
    assert !s.Contains(1337);
  }

  method InsertIntoEmpty()
  {
    var s1 := new SetWithCapacity<int>.New(1);
    var s2 := new SetWithCapacity.Single(1, TestElem);
    var inserted := s1.Insert(TestElem);
    assert inserted;
    assert s1.Cloned() == s2.Cloned();
  }

  method InsertRespectsCapacity()
  {
    var s := new SetWithCapacity<int>.New(0);
    var inserted := s.Insert(TestElem);
    assert !inserted;
  }

  method RemovePresentAndAbsent()
  {
    var s := new SetWithCapacity.Single(1, TestElem);
    var removed := s.Remove(1337);
    assert !removed;
    assert s.Len() == 1;
    removed := s.Remove(TestElem);
    assert removed;
    assert s.Len() == 0;
  }

  method BoundedUnionWithRoom()
  {
    var s := new SetWithCapacity.Single(10, TestElem);
    s.BoundedUnion({2}, {});
    BoundedUnionExample(s.wraps);
    assert s.Contains(TestElem) && s.Contains(2);
  }

  method BoundedUnionDropsPriorityFirst()
  {
    var s := new SetWithCapacity.Single(1, TestElem);
    s.BoundedUnion({2}, {TestElem});
    BoundedUnionDropPriorityExample(s.wraps);
    assert s.Len() == 1;
    assert s.Contains(2);
  }

  method AllowInspections()
  {
    var actor := new HyParViewActor.Default();
    var v := actor.Inspect();
    assert v == Views(SetValue(Config.Default().maxActiveViewSize, {}), SetValue(Config.Default().maxPassiveViewSize, {}));
  }
}
