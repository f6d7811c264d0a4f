/**
 * The `#packs=` URL fragment: decoding a shared link into a selection
 * instruction, resolving it against the registry, and encoding the current
 * selection back into the address bar.
 */
module HashCodec {
  import opened Text
  import opened Registry
  import opened Selection

  const Prefix := "#packs="

  /** What `parseHashPacks` returns: `null`, the string `"all"`, or a set. */
  datatype Decoded = NoInstruction | AllPacks | Packs(ids: set<string>)

  /** `parseHashPacks`, with the page's `location.hash` passed in as `hash`. */
  function ParseHashPacks(hash: string): (r: Decoded)
    ensures r.NoInstruction? <==> !StartsWith(hash, Prefix)
    ensures r.AllPacks? <==> hash == Prefix + "all"
    ensures hash == Prefix + "none" ==> r == Packs({})
    ensures r.Packs? ==> "" !in r.ids && forall id :: id in r.ids ==> ',' !in id
  {
    if !StartsWith(hash, Prefix) then NoInstruction
    else
      var val := hash[|Prefix|..];
      assert hash == Prefix + val;
      if val == "none" then Packs({})
      else if val == "all" then AllPacks
      else Packs(Tokens(val))
  }

  /** `#packs=` followed by nothing names no pack at all. */
  lemma EmptyListDecodesToEmptySet()
    ensures ParseHashPacks(Prefix) == Packs({})
  {
    assert Prefix[|Prefix|..] == "";
    assert Split("") == [""];
  }

  /**
   * The resolution step of `loadRegistry`: `"all"` becomes every registry
   * name, a decoded set loses the identifiers the registry does not list,
   * and no instruction keeps the `current` selection.
   */
  function Resolve(d: Decoded, names: set<string>, current: set<string>): (r: set<string>)
    ensures d.NoInstruction? ==> r == current
    ensures d.AllPacks? ==> r == names
    ensures d.Packs? ==> forall id :: id in r <==> id in d.ids && id in names
  {
    match d
    case NoInstruction => current
    case AllPacks => names
    case Packs(ids) => set id | id in ids && id in names
  }

  /** Only a link without a `#packs=` fragment can leave identifiers the registry lacks. */
  lemma ResolvedWithinRegistry(hash: string, names: set<string>, current: set<string>)
    requires StartsWith(hash, Prefix)
    ensures Resolve(ParseHashPacks(hash), names, current) <= names
  {
  }

  /** What the hash-sync effect does to the address bar (`history.replaceState`). */
  datatype UrlAction =
    | Keep                       // leave the URL alone
    | ResetToPath                // replace the URL by the bare path, dropping the fragment
    | Replace(fragment: string)  // replace the fragment

  /** The fragment the page holds after `a` has been applied to one holding `hash`. */
  function ApplyAction(hash: string, a: UrlAction): (r: string)
    ensures a.Keep? ==> r == hash
    ensures a.ResetToPath? ==> ParseHashPacks(r).NoInstruction?
    ensures a.Replace? ==> r == a.fragment
  {
    match a
    case Keep => hash
    case ResetToPath => ""
    case Replace(f) => f
  }

  /**
   * The hash-sync effect: nothing before the registry has loaded, the bare
   * path for the default selection (only when a `#packs=` fragment is
   * showing), `#packs=none` for the empty selection and otherwise the sorted
   * comma-separated identifiers.
   */
  function EncodeHash(selected: set<string>, registryLength: nat, currentHash: string): (a: UrlAction)
    ensures registryLength == 0 ==> a == Keep
    ensures registryLength > 0 && selected == Defaults ==>
              a == (if StartsWith(currentHash, Prefix) then ResetToPath else Keep)
    ensures registryLength > 0 && selected != Defaults ==> a.Replace? && StartsWith(a.fragment, Prefix)
    ensures registryLength > 0 && selected == {} ==> a == Replace(Prefix + "none")
    ensures a.Replace? && selected != {} ==>
              exists xs :: StrictlySorted(xs) && (forall x :: x in xs <==> x in selected)
                        && a.fragment == Prefix + Join(xs, ",")
  {
    if registryLength == 0 then Keep
    else if selected == Defaults then
      if StartsWith(currentHash, Prefix) then ResetToPath else Keep
    else if |selected| == 0 then Replace(Prefix + "none")
    else
      StartsWithConcat(Prefix, Join(SortedList(selected), ","));
      Replace(Prefix + Join(SortedList(selected), ","))
  }

  /**
   * A character that `history.replaceState` writes into a fragment as it
   * is and `location.hash` reads back as it is: printable ASCII other than
   * the space, `"`, `<`, `>` and the backtick, which the URL Standard's
   * fragment percent-encode set escapes (as it does every control and
   * non-ASCII character).
   */
  predicate FragmentSafe(c: char)
  {
    '!' <= c <= '~' && c != '"' && c != '<' && c != '>' && c != '`'
  }

  /** An identifier a comma list can carry: non-empty and free of commas. */
  predicate WellFormedId(id: string)
  {
    id != "" && ',' !in id
  }

  /**
   * An identifier a shared link carries: well formed, and made of
   * characters the address bar keeps as they are.
   */
  predicate Shareable(id: string)
  {
    WellFormedId(id) && forall c :: c in id ==> FragmentSafe(c)
  }

  /** Selections the fragment cannot carry: a single pack named like a keyword. */
  predicate Reserved(selected: set<string>)
  {
    |selected| == 1 && ("none" in selected || "all" in selected)
  }

  /** A fragment listing comma-free identifiers decodes to the non-empty ones. */
  lemma {:induction false} DecodeList(xs: seq<string>)
    requires |xs| >= 1 && forall t :: t in xs ==> ',' !in t
    requires Join(xs, ",") != "none" && Join(xs, ",") != "all"
    ensures ParseHashPacks(Prefix + Join(xs, ",")) == Packs(set t | t in xs && t != "")
  {
    StartsWithConcat(Prefix, Join(xs, ","));
    SplitJoin(xs);
  }

  /**
   * Decoding the fragment that the encoder writes gives back the selection,
   * for every non-empty, non-default selection of well-formed identifiers.
   */
  lemma {:induction false} DecodeEncode(selected: set<string>, registryLength: nat, currentHash: string)
    requires registryLength > 0 && selected != {} && selected != Defaults
    requires forall id :: id in selected ==> WellFormedId(id)
    requires !Reserved(selected)
    ensures EncodeHash(selected, registryLength, currentHash).Replace?
    ensures ParseHashPacks(EncodeHash(selected, registryLength, currentHash).fragment) == Packs(selected)
  {
    var xs := SortedList(selected);
    CommaFreeList(selected);
    ListIsNoKeyword(selected);
    DecodeList(xs);
    assert (set t | t in xs && t != "") == selected by {
      forall t | t in selected ensures t != "" { assert WellFormedId(t); }
    }
    EncodeListsSorted(selected, registryLength, currentHash);
  }

  lemma EncodeListsSorted(selected: set<string>, registryLength: nat, currentHash: string)
    requires registryLength > 0 && selected != {} && selected != Defaults
    ensures EncodeHash(selected, registryLength, currentHash) == Replace(Prefix + Join(SortedList(selected), ","))
  {
  }

  lemma CommaFreeList(selected: set<string>)
    requires forall id :: id in selected ==> WellFormedId(id)
    ensures forall t :: t in SortedList(selected) ==> ',' !in t
  {
    forall t | t in SortedList(selected) ensures ',' !in t { assert WellFormedId(t); }
  }

  /** The sorted list of a non-reserved selection is never the word "none" or "all". */
  lemma {:induction false} ListIsNoKeyword(selected: set<string>)
    requires selected != {}
    requires forall id :: id in selected ==> WellFormedId(id)
    requires !Reserved(selected)
    ensures Join(SortedList(selected), ",") != "none" && Join(SortedList(selected), ",") != "all"
  {
    var xs := SortedList(selected);
    var val := Join(xs, ",");
    assert ',' !in "none" && ',' !in "all";
    if ',' !in val {
      JoinWithoutComma(xs);
      assert val == xs[0] && xs[0] in selected && |selected| == 1;
    }
  }

  /** A single pack named "all" or "none" does not survive the round trip. */
  lemma ReservedNamesDoNotRoundTrip(registryLength: nat, currentHash: string)
    requires registryLength > 0
    ensures ParseHashPacks(EncodeHash({"all"}, registryLength, currentHash).fragment) == AllPacks
    ensures ParseHashPacks(EncodeHash({"none"}, registryLength, currentHash).fragment) == Packs({})
  {
    assert SortedList({"all"}) == ["all"];
    assert SortedList({"none"}) == ["none"];
  }

  /** What a visitor who opens the page with fragment `hash` ends up with once the registry lists `names`. */
  function Restore(hash: string, names: set<string>): (r: set<string>)
    ensures !StartsWith(hash, Prefix) ==> r == Defaults
    ensures StartsWith(hash, Prefix) ==> r <= names
    ensures hash == Prefix + "all" ==> r == names
  {
    Resolve(ParseHashPacks(hash), names, Defaults)
  }

  /**
   * A shared link reproduces the registry part of any selection other than
   * the defaults: after the hash-sync effect has run on any fragment, opening
   * the page with the resulting fragment selects the identifiers that the
   * registry lists, and drops the others.
   */
  lemma {:induction false} ShareLinkKeepsKnownPacks(selected: set<string>, packs: seq<Pack>, currentHash: string)
    requires |packs| > 0
    requires selected != Defaults
    requires forall id :: id in selected ==> Shareable(id)
    requires !Reserved(selected)
    ensures Restore(ApplyAction(currentHash, EncodeHash(selected, |packs|, currentHash)), Names(packs))
            == selected * Names(packs)
  {
    var after := ApplyAction(currentHash, EncodeHash(selected, |packs|, currentHash));
    if selected == {} {
      assert after == Prefix + "none";
      assert ParseHashPacks(after) == Packs({});
    } else {
      DecodeEncode(selected, |packs|, currentHash);
      assert ParseHashPacks(after) == Packs(selected);
    }
  }

  /**
   * A shared link reproduces the selection itself when the selection is the
   * defaults or lies within the registry: the defaults clear or keep a
   * fragment without an instruction, and any other selection comes back in
   * full. (A selection holding an identifier the registry lacks, which the
   * page reaches when the registry misses a default pack and a card is
   * toggled, comes back without that identifier.)
   */
  lemma {:induction false} ShareLinkRestores(selected: set<string>, packs: seq<Pack>, currentHash: string)
    requires |packs| > 0
    requires selected <= Names(packs) || selected == Defaults
    requires forall id :: id in selected ==> Shareable(id)
    requires !Reserved(selected)
    ensures Restore(ApplyAction(currentHash, EncodeHash(selected, |packs|, currentHash)), Names(packs)) == selected
  {
    var a := EncodeHash(selected, |packs|, currentHash);
    var after := ApplyAction(currentHash, a);
    if selected == Defaults {
      assert !StartsWith(after, Prefix);
    } else {
      ShareLinkKeepsKnownPacks(selected, packs, currentHash);
    }
  }

  /** A link naming one known and one unknown pack keeps only the known one. */
  lemma UnknownIdentifiersDropped()
    ensures Restore("#packs=gibberish,peon", {"peon"}) == {"peon"}
  {
    var xs := ["gibberish", "peon"];
    var ids := set t | t in xs && t != "";
    assert Join(xs, ",") == "gibberish,peon" by {}
    assert Prefix + "gibberish,peon" == "#packs=gibberish,peon" by {}
    assert ids == {"gibberish", "peon"} by {}
    DecodeList(xs);
    assert ParseHashPacks("#packs=gibberish,peon") == Packs(ids);
  }
}
