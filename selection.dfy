/**
 * The set of chosen pack identifiers and the operations the picker's
 * buttons and checkboxes apply to it.
 */
module Selection {

  /** `DEFAULT_PACKS`: the selection a visitor starts with. */
  const Defaults: set<string> := {
    "peon", "peasant", "glados", "sc_kerrigan", "sc_battlecruiser",
    "ra2_kirov", "dota2_axe", "duke_nukem", "tf2_engineer", "hd2_helldiver"
  }

  /**
   * `togglePickerPack`: the selection with `name`'s membership flipped,
   * which is the symmetric difference of the selection with `{name}`.
   */
  function Toggled(s: set<string>, name: string): (r: set<string>)
    ensures name in r <==> name !in s
    ensures forall x :: x != name ==> (x in r <==> x in s)
    ensures r == (s - {name}) + ({name} - s)
  {
    if name in s then s - {name} else s + {name}
  }

  lemma ToggleTwice(s: set<string>, name: string)
    ensures Toggled(Toggled(s, name), name) == s
  {
  }

  /** Toggling changes the size of the selection by exactly one. */
  lemma ToggleSize(s: set<string>, name: string)
    ensures name in s ==> |Toggled(s, name)| == |s| - 1
    ensures name !in s ==> |Toggled(s, name)| == |s| + 1
  {
  }

  lemma {:induction false} SubsetOfSameSize(a: set<string>, b: set<string>)
    requires a <= b && |a| == |b|
    ensures a == b
  {
    assert b == a + (b - a);
    assert |b - a| == 0;
  }

  /**
   * `setsEqual`: equal sizes, then every member of `a` looked up in `b`,
   * stopping at the first miss.
   */
  method SetsEqual(a: set<string>, b: set<string>) returns (eq: bool)
    ensures eq <==> a == b
  {
    if |a| != |b| {
      return false;
    }
    var rest := a;
    while rest != {}
      invariant rest <= a
      invariant a - rest <= b
      decreases |rest|
    {
      var item :| item in rest;
      if item !in b {
        return false;
      }
      rest := rest - {item};
    }
    SubsetOfSameSize(a, b);
    return true;
  }
}
