/**
 * The pack picker's state: the registry list once fetched, the selected
 * identifiers, the filter controls, the install mode and the open card.
 * Each handler of the page is a method; what the page derives from the
 * state (the URL update, the command, the visible cards) is read by
 * methods and functions that change nothing.
 */
module Picker {
  import opened Wrappers
  import opened Text
  import opened Registry
  import opened Selection
  import opened HashCodec
  import opened InstallCommand
  import opened PackFilter
  import opened Expand

  /** `pickerLoading` / `pickerError` as one tagged state. */
  datatype LoadStatus = Loading | Loaded | Failed

  class PackPicker {
    var registry: seq<Pack>
    var selected: set<string>
    var status: LoadStatus
    var activeFilter: string
    var query: string
    var mode: InstallMode
    var expanded: Option<string>

    /** The page's initial state: no registry yet, the default packs chosen. */
    constructor ()
      ensures registry == [] && selected == Defaults && status == Loading
      ensures activeFilter == "en" && query == "" && mode == Curl && expanded == None
    {
      registry := [];
      selected := Defaults;
      status := Loading;
      activeFilter := "en";
      query := "";
      mode := Curl;
      expanded := None;
    }

    /**
     * `loadRegistry` after a successful fetch of `packs`, with the page's
     * fragment `hash`: the registry is stored and the fragment's instruction
     * resolved against it.
     */
    method LoadRegistry(packs: seq<Pack>, hash: string)
      modifies this
      ensures registry == packs && status == Loaded
      ensures selected == Resolve(ParseHashPacks(hash), Names(packs), old(selected))
      ensures StartsWith(hash, Prefix) ==> selected <= Names(packs)
      ensures activeFilter == old(activeFilter) && query == old(query)
      ensures mode == old(mode) && expanded == old(expanded)
    {
      registry := packs;
      var validNames := Names(packs);
      var hashPacks := ParseHashPacks(hash);
      if hashPacks == AllPacks {
        selected := validNames;
      } else if hashPacks != NoInstruction {
        selected := set n | n in hashPacks.ids && n in validNames;
      }
      status := Loaded;
    }

    /** `loadRegistry` when the fetch or the JSON decoding fails. */
    method LoadFailed()
      modifies this`status
      ensures status == Failed
    {
      status := Failed;
    }

    /** `togglePickerPack` */
    method Toggle(name: string)
      modifies this`selected
      ensures selected == Toggled(old(selected), name)
    {
      var next := selected;
      if name in next {
        next := next - {name};
      } else {
        next := next + {name};
      }
      selected := next;
    }

    /** The "Defaults" button. */
    method SelectDefaults()
      modifies this`selected
      ensures selected == Defaults
    {
      selected := Defaults;
    }

    /** The "All" button: every name the registry lists. */
    method SelectAll()
      modifies this`selected
      ensures selected == Names(registry)
    {
      selected := set p | p in registry :: p.name;
    }

    /** The "None" button. */
    method SelectNone()
      modifies this`selected
      ensures selected == {}
    {
      selected := {};
    }

    method SetFilter(lang: string)
      modifies this`activeFilter
      ensures activeFilter == lang
    {
      activeFilter := lang;
    }

    /** The search box's handler stores the text lower-cased and trimmed; `q` is that text. */
    method SetQuery(q: string)
      modifies this`query
      ensures query == q
    {
      query := q;
    }

    method SetMode(m: InstallMode)
      modifies this`mode
      ensures mode == m
    {
      mode := m;
    }

    /** `toggleExpand` */
    method ToggleExpand(name: string)
      modifies this`expanded
      ensures expanded == ToggledExpansion(old(expanded), name)
    {
      if expanded == Some(name) {
        expanded := None;
      } else {
        expanded := Some(name);
      }
    }

    /**
     * The effect that collapses a card the filter or the search has hidden:
     * an open card (a non-empty name) that no visible pack carries is closed,
     * and otherwise nothing changes. The page runs it after every change of
     * the visible packs or of the open card.
     */
    method CollapseHidden()
      modifies this`expanded
      ensures old(expanded).Some? && old(expanded).value != "" && old(expanded).value !in Names(VisiblePacks())
              ==> expanded == None
      ensures !(old(expanded).Some? && old(expanded).value != "" && old(expanded).value !in Names(VisiblePacks()))
              ==> expanded == old(expanded)
      ensures expanded.Some? && expanded.value != "" ==> expanded.value in Names(VisiblePacks())
    {
      if expanded.Some? && expanded.value != "" && expanded.value !in Names(VisiblePacks()) {
        expanded := None;
      }
    }

    /**
     * The hash-sync effect, with the address bar's current fragment passed
     * in: what it does to the URL for the present selection.
     */
    method HashUpdate(currentHash: string) returns (a: UrlAction)
      ensures a == EncodeHash(selected, |registry|, currentHash)
    {
      if |registry| == 0 {
        return Keep;
      }
      var isDefault := SetsEqual(selected, Defaults);
      if isDefault {
        if StartsWith(currentHash, Prefix) {
          return ResetToPath;
        }
        return Keep;
      }
      if |selected| == 0 {
        return Replace(Prefix + "none");
      }
      return Replace(Prefix + Join(SortedList(selected), ","));
    }

    /** `pickerCommand` for the present state. */
    method Command() returns (c: string)
      ensures c == PickerCommand(mode, selected, |registry|)
    {
      var isDefault := SetsEqual(selected, Defaults);
      if |selected| == 0 || isDefault {
        c := Base(mode);
      } else if |selected| == |registry| {
        c := Base(mode) + AllFlag(mode);
      } else {
        c := Base(mode) + PacksFlag(mode) + Join(SortedList(selected), ",");
      }
    }

    /** The cards on screen, in registry order. */
    function VisiblePacks(): (r: seq<Pack>)
      reads this
      ensures forall p :: p in r <==> p in registry && Visible(p, activeFilter, query)
    {
      FilteredPacks(registry, activeFilter, query)
    }
  }

  /**
   * The "All" button followed by the hash sync never writes a fragment that
   * lists packs the registry lacks, and a visitor opening the page with the
   * resulting fragment gets every registry pack back.
   */
  lemma {:induction false} SelectAllShares(packs: seq<Pack>, currentHash: string)
    requires |packs| > 0
    requires forall i :: 0 <= i < |packs| ==> Shareable(packs[i].name)
    requires !Reserved(Names(packs))
    ensures Restore(ApplyAction(currentHash, EncodeHash(Names(packs), |packs|, currentHash)), Names(packs)) == Names(packs)
  {
    ShareLinkRestores(Names(packs), packs, currentHash);
  }

  /**
   * A toggle on a card keeps the selection shareable: unless the toggle
   * lands on the defaults, the hash sync followed by a reload restores the
   * toggled selection's registry part, and all of it when the selection
   * held registry names only.
   */
  lemma {:induction false} ToggleThenShare(selected: set<string>, packs: seq<Pack>, name: string, currentHash: string)
    requires |packs| > 0
    requires name in Names(packs)
    requires forall i :: 0 <= i < |packs| ==> Shareable(packs[i].name)
    requires forall id :: id in selected ==> Shareable(id)
    requires !Reserved(Toggled(selected, name))
    ensures var next := Toggled(selected, name);
            next != Defaults ==>
            Restore(ApplyAction(currentHash, EncodeHash(next, |packs|, currentHash)), Names(packs)) == next * Names(packs)
    ensures var next := Toggled(selected, name);
            selected <= Names(packs) ==>
            Restore(ApplyAction(currentHash, EncodeHash(next, |packs|, currentHash)), Names(packs)) == next
  {
    var next := Toggled(selected, name);
    assert Shareable(name);
    assert forall id :: id in next ==> Shareable(id);
    if next != Defaults {
      ShareLinkKeepsKnownPacks(next, packs, currentHash);
    }
    if selected <= Names(packs) {
      ShareLinkRestores(next, packs, currentHash);
    }
  }
}
