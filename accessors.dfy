/** GetterSetterPair: the mutable holder of the getter and the setter found for one
    property. A missing accessor (Java's null) is None. */
module Accessors {
  import opened Wrappers
  import opened Reflection

  /** The contents of a pair at one moment, as a value. */
  datatype PairView = PairView(getter: Option<JMethod>, setter: Option<JMethod>)

  class GetterSetterPair {
    var getter: Option<JMethod>
    var setter: Option<JMethod>

    /** A fresh pair holds neither accessor. */
    constructor ()
      ensures getter == None && setter == None
      ensures !HasGetterAndSetter()
    {
      getter := None;
      setter := None;
    }

    function View(): PairView
      reads this
    {
      PairView(getter, setter)
    }

    /** getGetter: the getter most recently set, if any. */
    function GetGetter(): (g: Option<JMethod>)
      reads this
      ensures g == View().getter
    {
      getter
    }

    /** getSetter: the setter most recently set, if any. */
    function GetSetter(): (s: Option<JMethod>)
      reads this
      ensures s == View().setter
    {
      setter
    }

    /** setGetter replaces the getter and leaves the setter alone. */
    method SetGetter(g: JMethod)
      modifies this
      ensures View() == PairView(Some(g), old(setter))
    {
      getter := Some(g);
    }

    /** setSetter replaces the setter and leaves the getter alone. */
    method SetSetter(s: JMethod)
      modifies this
      ensures View() == PairView(old(getter), Some(s))
    {
      setter := Some(s);
    }

    /** hasGetterAndSetter: both accessors are present. */
    predicate HasGetterAndSetter()
      reads this
      ensures HasGetterAndSetter() <==> GetGetter().Some? && GetSetter().Some?
    {
      getter.Some? && setter.Some?
    }
  }

  /** What a short client of the class can rely on: after setGetter and setSetter, in either
      order, a fresh pair reports both accessors and returns the last ones set. */
  method PairLifecycle(g: JMethod, s: JMethod, g2: JMethod) returns (complete: bool, last: Option<JMethod>)
    ensures complete && last == Some(g2)
  {
    var p := new GetterSetterPair();
    p.SetSetter(s);
    var before := p.HasGetterAndSetter();
    assert !before;
    p.SetGetter(g);
    p.SetGetter(g2);
    complete := p.HasGetterAndSetter();
    last := p.GetGetter();
    assert p.GetSetter() == Some(s);
  }
}
