/**
 * The component manager: it appends new components to the session's
 * component list, numbering them by their position in the list and giving
 * them default properties chosen by their type tag.
 *
 * The session store is an explicit object here: `SessionState` holds the
 * `vlc_components` entry, which is absent (`None`) until the first component
 * is added or the application initialises it.
 */
module VlcComponents {
  import opened VlcTypes

  /**
   * Default properties by type tag: "Light Source" gets the transmitter
   * defaults, every other tag (including "Receiver") the receiver defaults.
   */
  function DefaultProperties(componentType: string): (p: Properties)
    ensures p.LightProps? <==> componentType == LightSourceTag
    ensures p.LightProps? ==> p == LightProps(20.0, 120.0, 550.0, 3.0)
    ensures p.ReceiverProps? ==> p == ReceiverProps(-30.0, 60.0, 0.0001)
  {
    if componentType == LightSourceTag then
      LightProps(20.0, 120.0, 550.0, 3.0)
    else
      ReceiverProps(-30.0, 60.0, 0.0001)
  }

  /** The component `add_component` creates when the list already holds `count` entries. */
  function NewComponent(count: nat, componentType: string): Component
  {
    Component(componentType, count, Point(0.0, 0.0), DefaultProperties(componentType))
  }

  /** The list after one `add_component(componentType)`. */
  function Appended(list: seq<Component>, componentType: string): (r: seq<Component>)
    ensures |r| == |list| + 1 && r[..|list|] == list
    ensures r[|list|].id == |list| && r[|list|].kind == componentType
    ensures r[|list|].position == Point(0.0, 0.0)
  {
    list + [NewComponent(|list|, componentType)]
  }

  /** The list after adding one component per tag of `types`, in order. */
  function AddAll(list: seq<Component>, types: seq<string>): seq<Component>
    decreases |types|
  {
    if types == [] then list
    else AddAll(Appended(list, types[0]), types[1..])
  }

  /** Every component's id is its index in the list. */
  predicate IdsAreIndices(list: seq<Component>)
  {
    forall i :: 0 <= i < |list| ==> list[i].id == i
  }

  /** Adding to a list whose ids are its indices keeps that so, and keeps it analysable. */
  lemma AppendedKeepsInvariants(list: seq<Component>, componentType: string)
    requires IdsAreIndices(list) && LightsWellFormed(list)
    ensures IdsAreIndices(Appended(list, componentType))
    ensures LightsWellFormed(Appended(list, componentType))
  {
  }

  /**
   * Starting from an empty list, adding `types` one by one yields one
   * component per tag, in order, with ids 0, 1, ..., |types| - 1, each at the
   * origin and with the default properties of its tag.
   */
  lemma {:induction false} AddAllFromEmpty(types: seq<string>)
    ensures var r := AddAll([], types);
      && |r| == |types|
      && forall i :: 0 <= i < |r| ==>
           r[i] == Component(types[i], i, Point(0.0, 0.0), DefaultProperties(types[i]))
  {
    AddAllExtends([], types);
  }

  lemma {:induction false} AddAllExtends(list: seq<Component>, types: seq<string>)
    ensures var r := AddAll(list, types);
      && |r| == |list| + |types|
      && r[..|list|] == list
      && forall i :: 0 <= i < |types| ==> r[|list| + i] == NewComponent(|list| + i, types[i])
    decreases |types|
  {
    if types != [] {
      var next := Appended(list, types[0]);
      AddAllExtends(next, types[1..]);
      var r := AddAll(list, types);
      assert r == AddAll(next, types[1..]);
      assert r[..|list|] == r[..|next|][..|list|];
      forall i | 0 <= i < |types| ensures r[|list| + i] == NewComponent(|list| + i, types[i]) {
        if i > 0 {
          assert r[|next| + (i - 1)] == NewComponent(|next| + (i - 1), types[1..][i - 1]);
        } else {
          assert r[|list|] == r[..|next|][|list|];
        }
      }
    }
  }

  /** The Streamlit session store, reduced to its `vlc_components` entry. */
  class SessionState {
    var vlcComponents: Option<seq<Component>>

    /** The component list the session would expose, `[]` while absent. */
    function Components(): seq<Component>
      reads this
    {
      if vlcComponents.Some? then vlcComponents.value else []
    }

    ghost predicate Valid()
      reads this
    {
      IdsAreIndices(Components()) && LightsWellFormed(Components())
    }

    /** A fresh session: the entry is absent. */
    constructor ()
      ensures vlcComponents == None && Valid()
    {
      vlcComponents := None;
    }

    /**
     * `add_component(component_type)`: creates the entry as `[]` when absent,
     * then appends a component whose id is the list's length before the
     * append, at position (0, 0), with the tag's default properties.
     */
    method AddComponent(componentType: string)
      requires Valid()
      modifies this
      ensures Valid()
      ensures vlcComponents == Some(Appended(old(Components()), componentType))
    {
      if vlcComponents.None? {
        vlcComponents := Some([]);
      }
      var list := vlcComponents.value;
      var newComponent := Component(componentType, |list|, Point(0.0, 0.0), DefaultProperties(componentType));
      AppendedKeepsInvariants(list, componentType);
      vlcComponents := Some(list + [newComponent]);
    }
  }
}
