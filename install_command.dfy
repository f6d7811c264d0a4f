/**
 * The custom install command shown under the picker (`pickerCommand`): one
 * literal per install mode, extended with `--all` or `--packs=<list>`.
 */
module InstallCommand {
  import opened Text
  import opened Selection
  import opened HashCodec

  datatype InstallMode = Curl | Brew

  /** The command that installs the default packs. */
  function Base(mode: InstallMode): string
  {
    match mode
    case Brew => "brew install PeonPing/tap/peon-ping && peon-ping-setup"
    case Curl => "curl -fsSL https://raw.githubusercontent.com/PeonPing/peon-ping/main/install.sh | bash"
  }

  /** What is appended to install every registry pack. */
  function AllFlag(mode: InstallMode): string
  {
    match mode
    case Brew => " --all"
    case Curl => " -s -- --all"
  }

  /** What precedes the comma-separated pack list. */
  function PacksFlag(mode: InstallMode): string
  {
    match mode
    case Brew => " --packs="
    case Curl => " -s -- --packs="
  }

  /**
   * `pickerCommand`: the base command for an empty or default selection,
   * the `--all` variant when the selection has as many members as the
   * registry has entries, and otherwise the sorted pack list.
   */
  function PickerCommand(mode: InstallMode, selected: set<string>, registryLength: nat): (c: string)
    ensures c == Base(mode) <==> selected == {} || selected == Defaults
  {
    if |selected| == 0 || selected == Defaults then Base(mode)
    else if |selected| == registryLength then
      assert |AllFlag(mode)| > 0;
      Base(mode) + AllFlag(mode)
    else
      assert |PacksFlag(mode)| > 0;
      Base(mode) + PacksFlag(mode) + Join(SortedList(selected), ",")
  }

  /** Every command is the mode's base command, possibly followed by flags. */
  lemma CommandExtendsBase(mode: InstallMode, selected: set<string>, registryLength: nat)
    ensures StartsWith(PickerCommand(mode, selected, registryLength), Base(mode))
  {
    if |selected| == 0 || selected == Defaults {
      StartsWithSelf(Base(mode));
    } else if |selected| == registryLength {
      StartsWithConcat(Base(mode), AllFlag(mode));
    } else {
      StartsWithConcat3(Base(mode), PacksFlag(mode), Join(SortedList(selected), ","));
    }
  }

  /** The empty and the default selection both install the defaults, whatever the registry size. */
  lemma EmptyOrDefaultIsBase(mode: InstallMode, selected: set<string>, registryLength: nat)
    requires selected == {} || selected == Defaults
    ensures PickerCommand(mode, selected, registryLength) == Base(mode)
  {
  }

  /**
   * `--all` is chosen by counting: any selection with as many members as the
   * registry has entries, other than the defaults, gets it, whether or not
   * its members are the registry's names.
   */
  lemma AllByCount(mode: InstallMode, selected: set<string>, registryLength: nat)
    requires selected != {} && selected != Defaults && |selected| == registryLength
    ensures PickerCommand(mode, selected, registryLength) == Base(mode) + AllFlag(mode)
  {
  }

  /** A selection of one unknown identifier against a one-pack registry asks for every pack. */
  lemma AllFlagIgnoresMembership(mode: InstallMode)
    ensures PickerCommand(mode, {"gibberish"}, 1) == Base(mode) + AllFlag(mode)
  {
    assert {"gibberish"} != Defaults by { assert "gibberish" !in Defaults; }
    AllByCount(mode, {"gibberish"}, 1);
  }

  /** A sorted comma list after any `head` splits back into the set it lists. */
  lemma {:induction false} SortedListAfter(head: string, selected: set<string>)
    requires selected != {}
    requires forall id :: id in selected ==> WellFormedId(id)
    ensures var c := head + Join(SortedList(selected), ",");
            StartsWith(c, head) && Tokens(c[|head|..]) == selected
  {
    var xs := SortedList(selected);
    StartsWithConcat(head, Join(xs, ","));
    assert forall t :: t in xs ==> ',' !in t by {
      forall t | t in xs ensures ',' !in t { assert WellFormedId(t); }
    }
    SplitJoin(xs);
    assert Tokens(Join(xs, ",")) == selected by {
      forall t ensures t in Tokens(Join(xs, ",")) <==> t in selected {
        if t in selected { assert WellFormedId(t); }
      }
    }
  }

  /**
   * Any other selection is listed after the packs flag, each identifier once
   * in ascending order.
   */
  lemma PartialCommandShape(mode: InstallMode, selected: set<string>, registryLength: nat)
    requires selected != {} && selected != Defaults && |selected| != registryLength
    ensures var c := PickerCommand(mode, selected, registryLength);
            var head := Base(mode) + PacksFlag(mode);
            StartsWith(c, head) &&
            exists xs :: StrictlySorted(xs) && (forall x :: x in xs <==> x in selected)
                       && c == head + Join(xs, ",")
  {
    var head := Base(mode) + PacksFlag(mode);
    var xs := SortedList(selected);
    assert PickerCommand(mode, selected, registryLength) == head + Join(xs, ",");
    StartsWithConcat(head, Join(xs, ","));
  }

  /**
   * The installer, splitting the listed part of such a command on commas,
   * recovers exactly the selection when its identifiers are non-empty and
   * comma-free.
   */
  lemma {:induction false} PartialListsSelection(mode: InstallMode, selected: set<string>, registryLength: nat)
    requires selected != {} && selected != Defaults && |selected| != registryLength
    requires forall id :: id in selected ==> WellFormedId(id)
    ensures var c := PickerCommand(mode, selected, registryLength);
            var head := Base(mode) + PacksFlag(mode);
            StartsWith(c, head) &&
            (exists xs :: StrictlySorted(xs) && (forall x :: x in xs <==> x in selected)
                       && c == head + Join(xs, ",")) &&
            Tokens(c[|head|..]) == selected
  {
    var xs := SortedList(selected);
    var head := Base(mode) + PacksFlag(mode);
    PartialCommandShape(mode, selected, registryLength);
    assert PickerCommand(mode, selected, registryLength) == head + Join(xs, ",");
    SortedListAfter(head, selected);
  }

  /** The brew command for the selection {"z", "a"} lists "a" before "z". */
  lemma BrewTwoPacks()
    ensures PickerCommand(Brew, {"z", "a"}, 10) == Base(Brew) + " --packs=a,z"
  {
    var s := {"z", "a"};
    assert s != Defaults by { assert "a" !in Defaults; }
    assert |s| == 2 by {}
    assert SortedList(s) == ["a", "z"] by {
      assert Below("a", "z");
      StrictlySortedUnique(SortedList(s), ["a", "z"]);
    }
    assert Join(["a", "z"], ",") == "a,z" by {}
    assert Base(Brew) + PacksFlag(Brew) + "a,z" == Base(Brew) + " --packs=a,z" by {
      assert PacksFlag(Brew) + "a,z" == " --packs=a,z";
      assert Base(Brew) + PacksFlag(Brew) + "a,z" == Base(Brew) + (PacksFlag(Brew) + "a,z");
    }
  }

  /**
   * The command and the shared link agree: whenever both list packs, they
   * list the same identifiers in the same order.
   */
  lemma {:induction false} CommandMatchesFragment(mode: InstallMode, selected: set<string>, registryLength: nat, currentHash: string)
    requires registryLength > 0
    requires selected != {} && selected != Defaults && |selected| != registryLength
    ensures var head := Base(mode) + PacksFlag(mode);
            var c := PickerCommand(mode, selected, registryLength);
            |head| <= |c| &&
            EncodeHash(selected, registryLength, currentHash) == Replace(Prefix + c[|head|..])
  {
    var head := Base(mode) + PacksFlag(mode);
    var list := Join(SortedList(selected), ",");
    assert PickerCommand(mode, selected, registryLength) == head + list;
    StartsWithConcat(head, list);
  }
}
