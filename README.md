# peon-ping pack picker, modelled in Dafny

The peon-ping landing page (`docs/src/app/page.tsx`) has a pack picker.
Visitors choose which sound packs to install, and the page keeps three
things consistent:

- the set of selected pack identifiers;
- the `#packs=` URL fragment, so that a selection can be shared as a link;
- the generated `curl` or `brew` install command.

This project models that picker: the fragment decoder and encoder, the
resolution of a decoded fragment against the fetched registry, the
install-command builder, the selection buttons, the language/search filter
and the card expansion with its sound URLs. It also models the carousel's
index wrap-around from the same page. The picker's React state is a
`PackPicker` class whose handlers are methods. What the page derives from
that state (the URL update, the command, the visible cards) is given by pure
functions, and the properties are proved about those functions.

Modules, one per concern:

- `Wrappers`: `Option`.
- `Text`: `startsWith`, `split(",")`, `join`, ASCII lower-casing, `includes`, and the default sort order with a sort function.
- `Lists`: `filter` and order preservation.
- `Registry`: the `Pack` record and the set of registry names.
- `Selection`: `DEFAULT_PACKS`, toggle, and `setsEqual` as a loop.
- `HashCodec`: decode, resolve, encode, and the share-link round trip.
- `InstallCommand`: `pickerCommand`.
- `PackFilter`: `filteredPacks`.
- `Expand`: `toggleExpand`, sound URLs, and manifest categories.
- `Carousel`: `goToSlide`.
- `Picker`: the `PackPicker` state class.

Points where the page's behaviour is easy to misread:

- The hash encoder has no `#packs=all` branch. A selection of every registry pack is written as the full sorted list. `#packs=all` is only ever decoded.
- The install command's `--all` variant is chosen by comparing the selection's size with the registry's length. It does not compare sets (`AllFlagIgnoresMembership`).
- The default selection clears the fragment only when the current fragment starts with `#packs=`. Otherwise the URL is left alone.
- A selection can hold identifiers the registry does not list. This happens when the registry lacks one of `DEFAULT_PACKS` and a card is then toggled. The link written for such a selection restores only its registry part (`ShareLinkKeepsKnownPacks`).
- The fragment is decoded only after the registry has arrived, inside `loadRegistry`. So no `"all"` instruction is ever held back waiting for the registry.

## Model

| member | source | states |
|---|---|---|
| `Selection.SetsEqual` | docs/src/app/page.tsx:60-64 | The size test, then the early-exit membership loop, answers exactly whether the two sets are equal |
| `Selection.Toggled` | docs/src/app/page.tsx:646-653 | Toggling flips only `name`'s membership and leaves every other identifier alone. It is the symmetric difference with `{name}` |
| `Selection.ToggleTwice` | docs/src/app/page.tsx:646-653 | Toggling the same name twice restores the original selection |
| `Selection.ToggleSize` | docs/src/app/page.tsx:646-653 | A toggle removes one member or adds one, and the pack count shown below the grid moves by one |
| `Text.Split` | docs/src/app/page.tsx:79 | `split(",")` always yields at least one piece, and no piece contains a comma |
| `Text.StartsWith` | docs/src/app/page.tsx:75 | `startsWith` holds exactly when the prefix fits and agrees with the text position by position |
| `Text.Join` | docs/src/app/page.tsx:619 | Joining no pieces gives the empty text, and every character of a join comes from the separator or from one of the pieces |
| `Text.SplitJoin` | docs/src/app/page.tsx:79 | Splitting comma-joined comma-free pieces gives the pieces back |
| `Text.Tokens` | docs/src/app/page.tsx:79 | After `filter(Boolean)` the decoded identifiers are never empty and never contain a comma |
| `Text.SortedList` | docs/src/app/page.tsx:619 | `Array.from(set).sort()` lists every member exactly once, in strictly ascending order |
| `Text.StrictlySortedUnique` | docs/src/app/page.tsx:619 | Only one strictly sorted list has a given set of members, so the sorted list of a selection is determined by its membership |
| `Text.Lower` | docs/src/app/page.tsx:665 | Lower-casing keeps the length and maps each character through ASCII lower-casing |
| `Text.LowerOccurs` | docs/src/app/page.tsx:665-666 | Lower-casing a text keeps every occurrence of a piece, lower-cased, at the same position |
| `Text.Contains` | docs/src/app/page.tsx:666 | `includes` holds exactly when the query occurs at some position of the text |
| `Registry.Names` | docs/src/app/page.tsx:582 | Every registry entry's name is a valid name, and every valid name belongs to some entry |
| `HashCodec.ParseHashPacks` | docs/src/app/page.tsx:72-80 | The decoder gives no instruction exactly when the fragment lacks `#packs=`, and gives `all` exactly for `#packs=all`. `#packs=none` gives the empty set, `none` being checked before `all`. A decoded set holds no empty and no comma-bearing identifier |
| `HashCodec.EmptyListDecodesToEmptySet` | docs/src/app/page.tsx:76-79 | `#packs=` with nothing after it decodes to the empty set |
| `HashCodec.Resolve` | docs/src/app/page.tsx:581-588 | `all` becomes exactly the registry's names. A decoded set keeps exactly its members that the registry lists. No instruction keeps the current selection |
| `HashCodec.ResolvedWithinRegistry` | docs/src/app/page.tsx:581-588 | After a `#packs=` link is resolved, the selection lies within the registry |
| `HashCodec.UnknownIdentifiersDropped` | docs/src/app/page.tsx:581-588 | `#packs=gibberish,peon` against a registry listing only `peon` selects `{peon}` |
| `HashCodec.ApplyAction` | docs/src/app/page.tsx:610-619 | Keeping leaves the fragment, replacing installs the new one, and resetting to the bare path leaves no `#packs=` instruction |
| `HashCodec.Restore` | docs/src/app/page.tsx:581-588 | Reopening the page without a `#packs=` fragment keeps `DEFAULT_PACKS`. With one, it selects only registry names, and `#packs=all` selects all of them |
| `HashCodec.EncodeHash` | docs/src/app/page.tsx:607-620 | The encoder does nothing before the registry loads. The default selection resets to the bare path only when a `#packs=` fragment is showing. The empty selection gives exactly `#packs=none`. Any other selection gives `#packs=` and a strictly sorted comma list of exactly its members |
| `HashCodec.EncodeListsSorted` | docs/src/app/page.tsx:615-619 | A non-empty, non-default selection is written as `#packs=` and its sorted list, once the registry is loaded |
| `HashCodec.DecodeList` | docs/src/app/page.tsx:76-79 | A fragment holding a comma list that is neither `none` nor `all` decodes to the set of its non-empty items |
| `HashCodec.ListIsNoKeyword` | docs/src/app/page.tsx:77-78 | The sorted list of a well-formed selection is never the keyword `none` or `all`, unless the selection is a single pack named like the keyword |
| `HashCodec.DecodeEncode` | docs/src/app/page.tsx:607-620 | Decoding the encoder's fragment returns the selection, for every non-empty, non-default selection of non-empty comma-free identifiers other than `{"none"}` and `{"all"}` |
| `HashCodec.ReservedNamesDoNotRoundTrip` | docs/src/app/page.tsx:77-78 | A lone pack named `all` comes back as every pack, and a lone pack named `none` comes back as no pack |
| `HashCodec.ShareLinkRestores` | docs/src/app/page.tsx:574-620 | The hash sync runs on any fragment, and the page is then reopened with the resulting fragment. This restores the defaults, and every registry-only selection of shareable identifiers other than a lone `none` or `all` pack. Shareable means non-empty, comma-free and made of characters the address bar keeps |
| `HashCodec.ShareLinkKeepsKnownPacks` | docs/src/app/page.tsx:574-620 | For every non-default selection of shareable identifiers other than a lone `none` or `all` pack, the link the page writes restores exactly the identifiers the registry lists |
| `InstallCommand.CommandExtendsBase` | docs/src/app/page.tsx:623-643 | Every command starts with the mode's base command |
| `InstallCommand.PickerCommand` | docs/src/app/page.tsx:623-643 | The command is the bare base command exactly when the selection is empty or the defaults |
| `InstallCommand.EmptyOrDefaultIsBase` | docs/src/app/page.tsx:626-627 | An empty or default selection yields exactly the base command, whatever the registry size. This check comes first |
| `InstallCommand.AllByCount` | docs/src/app/page.tsx:628-629 | Any other selection with as many members as the registry has entries yields the base command plus ` --all` (brew) or ` -s -- --all` (curl) |
| `InstallCommand.AllFlagIgnoresMembership` | docs/src/app/page.tsx:628-629 | The `--all` test counts: one unknown identifier against a one-pack registry asks for every pack |
| `InstallCommand.SortedListAfter` | docs/src/app/page.tsx:631 | A sorted comma list placed after any prefix splits back into the set it lists |
| `InstallCommand.PartialCommandShape` | docs/src/app/page.tsx:630-641 | Any other selection (non-empty, not the defaults, not the registry's size) gives the base command, the packs flag and a strictly sorted comma list of exactly the selection |
| `InstallCommand.PartialListsSelection` | docs/src/app/page.tsx:630-641 | In that case, when the identifiers are non-empty and comma-free, the installer splitting the listed part on commas receives exactly the selection |
| `InstallCommand.BrewTwoPacks` | docs/src/app/page.tsx:624-632 | For `{z, a}` out of ten packs, brew mode gives the base command followed by ` --packs=a,z` |
| `InstallCommand.CommandMatchesFragment` | docs/src/app/page.tsx:607-643 | When both list packs, the command's list and the fragment's list are the same text |
| `Lists.Filter` | docs/src/app/page.tsx:657-667 | `filter` keeps exactly the accepted elements and never lengthens the list |
| `Lists.FilterIsSubsequence` | docs/src/app/page.tsx:657-667 | A filter's result is a subsequence of its input |
| `Lists.FilterTwice` | docs/src/app/page.tsx:657-667 | Two chained filters equal one filter by the conjunction |
| `PackFilter.FilteredPacks` | docs/src/app/page.tsx:656-667 | The visible packs are exactly the registry packs that pass the language step and the search step. They form a subsequence of the registry, in registry order |
| `PackFilter.LangMatches` | docs/src/app/page.tsx:658-662 | The "all" button passes every pack, and a language button passes exactly the packs tagged with that language |
| `PackFilter.Haystack` | docs/src/app/page.tsx:665 | The searchable text holds the lower-cased display name at its start and the lower-cased name after the first space |
| `PackFilter.SearchMatches` | docs/src/app/page.tsx:663-666 | An empty query passes every pack, and a query equal to a pack's lower-cased display name or name finds it |
| `PackFilter.OtherIsTheRest` | docs/src/app/page.tsx:656-662 | "other" passes a pack exactly when none of the six language buttons does |
| `PackFilter.AllWithoutQueryShowsEverything` | docs/src/app/page.tsx:659-664 | Filter "all" with an empty query returns the registry list unchanged |
| `PackFilter.FilterKeepsOrder` | docs/src/app/page.tsx:657-667 | Filtering a registry made of two lists joined gives the two filtered lists joined |
| `PackFilter.OtherShowsUnknownLanguages` | docs/src/app/page.tsx:656-660 | With an empty search box, "other" shows exactly the packs whose language, with a missing one read as "", is none of en, ru, es, fr, cs, pt-BR |
| `PackFilter.UntaggedPack` | docs/src/app/page.tsx:659-661 | A pack without a language tag is never shown by a single-language filter, and is shown by "other" when the search allows it |
| `PackFilter.QueryMatchesSubstring` | docs/src/app/page.tsx:663-666 | With a non-empty query, a pack is shown exactly when the query occurs in the lower-cased, space-joined display name, name, description, author name and tags |
| `Expand.ToggledExpansion` | docs/src/app/page.tsx:679-685 | After a click, the clicked card is open exactly when it was not open before. Otherwise no card is open |
| `Expand.ExpandCollapse` | docs/src/app/page.tsx:682 | Two clicks on the same card, starting from no open card, leave no card open |
| `Expand.SoundUrl` | docs/src/app/page.tsx:1091-1106 | A sound URL is the pack's raw-file base (repo, ref and optional source path), then `sounds/`, then the file path with any leading `sounds/` removed |
| `Expand.SoundsPrefixOptional` | docs/src/app/page.tsx:1105-1106 | A file path given with or without the leading `sounds/` plays the same URL |
| `Expand.SoundUrlInSoundsDir` | docs/src/app/page.tsx:1091-1106 | Every sound URL lies under the pack's `sounds/` directory |
| `Expand.PathSegment` | docs/src/app/page.tsx:1090 | The path segment is empty exactly when the source path is missing or empty. Otherwise it is the source path followed by `/` |
| `Expand.BaseUrl` | docs/src/app/page.tsx:1091 | Every base URL starts with the raw-content host and ends with `/` |
| `Expand.CategorySounds` | docs/src/app/page.tsx:1095-1097 | A category's sounds are the array itself, or the object's `sounds`, or none when the object has no `sounds` |
| `Expand.Button` | docs/src/app/page.tsx:1104-1119 | A sound button plays `SoundUrl` of the entry's file, which lies under `sounds/`. Its caption is the label when the label is non-empty, and otherwise the file path, since an empty label counts as missing. The caption is blank only when both are missing or empty |
| `Expand.Buttons` | docs/src/app/page.tsx:1104-1121 | A category shows one button per sound, the j-th being `Button` of the j-th sound |
| `Expand.CategoryViews` | docs/src/app/page.tsx:1093-1127 | The card shows exactly the categories with at least one sound, in manifest order. Each is shown under its key with `Buttons` of its sounds. So no view is empty, every URL lies under `sounds/`, and no category is dropped when all have sounds |
| `Expand.Views` | docs/src/app/page.tsx:1093-1127 | The category recursion shows exactly the categories with sounds, in order, with their keys and buttons |
| `Expand.ShownCategoriesShape` | docs/src/app/page.tsx:1093-1098 | Showing exactly the categories with sounds implies no more views than categories, no empty view, URLs under `sounds/`, and every category when all have sounds |
| `Carousel.JsRem` | docs/src/app/page.tsx:530 | JavaScript's `%` leaves a remainder with the dividend's sign, less than the divisor in size, and differs from the dividend by a multiple of the divisor |
| `Carousel.WrapIndex` | docs/src/app/page.tsx:526-533 | `((i % len) + len) % len` lies in `[0, len)` and equals the Euclidean remainder of `i` by `len` |
| `Carousel.WrapIndexCongruent` | docs/src/app/page.tsx:530 | The wrapped index differs from `i` by a whole number of laps |
| `Carousel.InRangeKept` | docs/src/app/page.tsx:530 | An index already in range is kept |
| `Carousel.StepsWrap` | docs/src/app/page.tsx:773-774 | Stepping left from slide 0 gives `len - 1`, and stepping right from the last slide gives 0 |
| `Carousel.Slideshow.constructor` | docs/src/app/page.tsx:345 | The carousel opens on slide 0 |
| `Carousel.Slideshow.GoToSlide` | docs/src/app/page.tsx:526-533 | `goToSlide(i)` sets the index to `i` wrapped into the six slides |
| `Picker.PackPicker.constructor` | docs/src/app/page.tsx:353-360 | The picker starts with no registry, the default packs, loading, the "en" filter, an empty query, curl mode and no open card |
| `Picker.PackPicker.LoadRegistry` | docs/src/app/page.tsx:574-590 | A successful load stores the registry and resolves the fragment's instruction against it. After a `#packs=` link, the selection lies within the registry. Nothing else changes |
| `Picker.PackPicker.LoadFailed` | docs/src/app/page.tsx:598-601 | A failed load only marks the picker as failed |
| `Picker.PackPicker.Toggle` | docs/src/app/page.tsx:646-653 | A checkbox click replaces the selection by its toggle |
| `Picker.PackPicker.SelectDefaults` | docs/src/app/page.tsx:1147 | "Defaults" selects exactly `DEFAULT_PACKS`, whether or not the registry lists them |
| `Picker.PackPicker.SelectAll` | docs/src/app/page.tsx:1154 | "All" selects exactly the registry's names |
| `Picker.PackPicker.SelectNone` | docs/src/app/page.tsx:1161 | "None" empties the selection |
| `Picker.PackPicker.SetFilter` | docs/src/app/page.tsx:1026 | A language button sets the active filter |
| `Picker.PackPicker.SetQuery` | docs/src/app/page.tsx:1008 | The search box sets the query |
| `Picker.PackPicker.SetMode` | docs/src/app/page.tsx:1169-1182 | The curl/brew toggle sets the install mode |
| `Picker.PackPicker.ToggleExpand` | docs/src/app/page.tsx:679-685 | A card click toggles which card is open |
| `Picker.PackPicker.CollapseHidden` | docs/src/app/page.tsx:780-785 | The collapse effect closes an open card whose name no visible pack carries and otherwise changes nothing. Afterwards any open (non-empty) card is visible |
| `Picker.PackPicker.HashUpdate` | docs/src/app/page.tsx:607-620 | The hash-sync effect, which tests default-ness with `setsEqual`, does what `EncodeHash` prescribes for the current state |
| `Picker.PackPicker.Command` | docs/src/app/page.tsx:623-643 | The command shown is `PickerCommand` of the current mode, selection and registry length |
| `Picker.PackPicker.VisiblePacks` | docs/src/app/page.tsx:656-667 | The cards on screen are exactly the registry packs that pass the current filter and query |
| `Picker.SelectAllShares` | docs/src/app/page.tsx:1154 | After "All", with every registry name shareable and the registry not a lone `none` or `all` pack, the link the page writes restores every registry pack on reopening |
| `Picker.ToggleThenShare` | docs/src/app/page.tsx:646-653 | Toggling a registry pack, with shareable identifiers throughout and no lone `none` or `all` result, writes a link that restores the toggled selection's registry part unless it is the defaults, and all of it when the selection held registry names only |

## Left out

- Audio playback: the shared "currently playing" element, preview buttons, expand-area sound playing and the carousel's `stopPackAudio` call. These drive media elements and asynchronous `ended` events.
- The terminal animation, which uses timers and an intersection observer, and the copy-to-clipboard block with its two-second reset.
- Every `fetch` is left out: the pack count, the registry, and the per-pack manifest with its cache. The registry list and the manifest's categories are parameters. A failed registry fetch is the `LoadFailed` method.
- The JSON shape checks on a manifest category whose `sounds` is present but not an array: the typed model cannot hold such a value.
- The smooth scroll to the picker after a shared link, and `escapeHtml`, which is a DOM call and unused.
- `HashCodec.ApplyAction`: writes the fragment as given. The browser's percent-encoding of spaces, `"`, `<`, `>`, backticks, control characters and non-ASCII characters is not modelled. So the share-link lemmas are stated only for identifiers made of the remaining printable ASCII characters (`Shareable`). Any other identifier is read back in its encoded form and dropped by the registry check.
- The URL is modelled as its fragment alone. `history.replaceState` is the returned `UrlAction`, and the bare path is the empty fragment.
- React's effect scheduling is not modelled. The model does not capture that the hash sync re-runs after every change of the selection or registry. `HashUpdate` is what one run does.
- `Text.Lower`: models `toLowerCase` on the ASCII letters only. Unicode case mapping is not modelled.
- `Picker.PackPicker.SetQuery`: stores the text as given. The input handler's lower-casing and trimming are assumed already applied.
- `Text.SortedList`: orders by Dafny characters (Unicode scalar values). JavaScript's default sort compares UTF-16 code units, and the two orders differ only between characters outside the Basic Multilingual Plane and those in U+E000 to U+FFFF.
- `soundKey` strings and the per-sound playing markers belong to the audio bookkeeping.
- `video/src/Root.tsx` (video composition registration) and `scripts/mac-overlay.js` (a macOS overlay window script) are not part of this model.
