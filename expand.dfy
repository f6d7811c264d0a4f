/**
 * A picker card's expanded view: which card is open (`toggleExpand`) and
 * the sound buttons built from a manifest, each playing a file
 * stored in the repository that publishes that sound pack.
 */
module Expand {
  import opened Wrappers
  import opened Text
  import opened Registry
  import opened Lists

  /** `toggleExpand`: clicking the open card closes it, clicking any other card opens that one. */
  function ToggledExpansion(expanded: Option<string>, name: string): (r: Option<string>)
    ensures r == Some(name) <==> expanded != Some(name)
    ensures r != Some(name) ==> r == None
  {
    if expanded == Some(name) then None else Some(name)
  }

  /** Clicking the same card twice from a closed picker leaves it closed. */
  lemma ExpandCollapse(name: string)
    ensures ToggledExpansion(ToggledExpansion(None, name), name) == None
  {
  }

  const RawHost := "https://raw.githubusercontent.com/"
  const SoundsDir := "sounds/"

  /** `pack.source_path + "/"`, or nothing when the path is missing or empty. */
  function PathSegment(p: Pack): (r: string)
    ensures r == "" <==> p.sourcePath.GetOr("") == ""
    ensures r != "" ==> r[|r| - 1] == '/' && r[..|r| - 1] == p.sourcePath.GetOr("")
  {
    match p.sourcePath
    case Some(sp) => if sp != "" then sp + "/" else ""
    case None => ""
  }

  /** The raw-file base URL: repository, ref and optional sub-directory of a sound pack. */
  function BaseUrl(p: Pack): (r: string)
    ensures StartsWith(r, RawHost)
    ensures |r| > 0 && r[|r| - 1] == '/'
  {
    var tail := p.sourceRepo + "/" + p.sourceRef + "/" + PathSegment(p);
    StartsWithConcat(RawHost, tail);
    assert RawHost + tail == RawHost + p.sourceRepo + "/" + p.sourceRef + "/" + PathSegment(p);
    RawHost + p.sourceRepo + "/" + p.sourceRef + "/" + PathSegment(p)
  }

  /**
   * The URL a manifest entry plays: the file path under `BaseUrl`, with
   * `sounds/` put in front unless the path already starts with it.
   */
  function SoundUrl(p: Pack, file: string): (u: string)
    ensures exists rel :: u == BaseUrl(p) + SoundsDir + rel &&
                          (file == SoundsDir + rel || (file == rel && !StartsWith(file, SoundsDir)))
  {
    if StartsWith(file, SoundsDir) then
      var rel := file[|SoundsDir|..];
      assert file == SoundsDir + rel;
      assert BaseUrl(p) + file == BaseUrl(p) + SoundsDir + rel;
      BaseUrl(p) + file
    else
      BaseUrl(p) + SoundsDir + file
  }

  /** A path given with or without the leading `sounds/` plays the same file. */
  lemma SoundsPrefixOptional(p: Pack, file: string)
    requires !StartsWith(file, SoundsDir)
    ensures SoundUrl(p, SoundsDir + file) == SoundUrl(p, file)
  {
    StartsWithConcat(SoundsDir, file);
    assert BaseUrl(p) + (SoundsDir + file) == BaseUrl(p) + SoundsDir + file;
  }

  /** Every sound URL points into the pack's `sounds/` directory. */
  lemma SoundUrlInSoundsDir(p: Pack, file: string)
    ensures StartsWith(SoundUrl(p, file), BaseUrl(p) + SoundsDir)
  {
    var rel :| SoundUrl(p, file) == BaseUrl(p) + SoundsDir + rel;
    StartsWithConcat(BaseUrl(p) + SoundsDir, rel);
  }

  /* ---------------------------------------------------------------- */
  /*  Manifest categories                                              */
  /* ---------------------------------------------------------------- */

  datatype Sound = Sound(file: Option<string>, soundLabel: Option<string>)

  /** A manifest category: a bare list of sounds, or an object that may hold one. */
  datatype Category = SoundList(list: seq<Sound>) | SoundGroup(sounds: Option<seq<Sound>>)

  datatype SoundButton = SoundButton(caption: string, url: string)

  datatype CategoryView = CategoryView(key: string, buttons: seq<SoundButton>)

  /** The sounds a category lists: the array itself, or an object's `sounds`, none when it has none. */
  function CategorySounds(c: Category): (r: seq<Sound>)
    ensures c.SoundList? ==> r == c.list
    ensures c.SoundGroup? && c.sounds.Some? ==> r == c.sounds.value
    ensures c.SoundGroup? && c.sounds.None? ==> r == []
  {
    match c
    case SoundList(list) => list
    case SoundGroup(sounds) => sounds.GetOr([])
  }

  /**
   * One button: it plays the entry's file and is captioned `label || file`,
   * so an empty label counts as a missing one (a missing file reads as "").
   */
  function Button(p: Pack, s: Sound): (b: SoundButton)
    ensures b.url == SoundUrl(p, s.file.GetOr(""))
    ensures StartsWith(b.url, BaseUrl(p) + SoundsDir)
    ensures s.soundLabel.GetOr("") != "" ==> b.caption == s.soundLabel.value
    ensures s.soundLabel.GetOr("") == "" ==> b.caption == s.file.GetOr("")
    ensures b.caption == "" <==> s.soundLabel.GetOr("") == "" && s.file.GetOr("") == ""
  {
    var path := s.file.GetOr("");
    var given := s.soundLabel.GetOr("");
    SoundUrlInSoundsDir(p, path);
    SoundButton(if given != "" then given else path, SoundUrl(p, path))
  }

  /** The buttons of one category, one per sound, in manifest order. */
  function Buttons(p: Pack, sounds: seq<Sound>): (r: seq<SoundButton>)
    ensures |r| == |sounds|
    ensures forall j :: 0 <= j < |r| ==> r[j] == Button(p, sounds[j])
  {
    seq(|sounds|, j requires 0 <= j < |sounds| => Button(p, sounds[j]))
  }

  /** A category the card shows: one with at least one sound. */
  predicate HasSounds(entry: (string, Category))
  {
    |CategorySounds(entry.1)| > 0
  }

  /** `views` shows exactly the categories with sounds, in order, with their keys and buttons. */
  predicate ShowsCategories(p: Pack, categories: seq<(string, Category)>, views: seq<CategoryView>)
  {
    var shown := Filter(categories, HasSounds);
    |views| == |shown| &&
    forall i :: 0 <= i < |views| ==>
      views[i].key == shown[i].0 && views[i].buttons == Buttons(p, CategorySounds(shown[i].1))
  }

  /** What follows for the card from showing exactly the categories with sounds. */
  lemma {:induction false} ShownCategoriesShape(p: Pack, categories: seq<(string, Category)>, views: seq<CategoryView>)
    requires ShowsCategories(p, categories, views)
    ensures |views| <= |categories|
    ensures forall v :: v in views ==> |v.buttons| > 0
    ensures forall v, b :: v in views && b in v.buttons ==> StartsWith(b.url, BaseUrl(p) + SoundsDir)
    ensures (forall i :: 0 <= i < |categories| ==> HasSounds(categories[i])) ==> |views| == |categories|
  {
    var shown := Filter(categories, HasSounds);
    forall v | v in views ensures |v.buttons| > 0 {
      var i :| 0 <= i < |views| && views[i] == v;
      assert shown[i] in shown;
    }
    if forall i :: 0 <= i < |categories| ==> HasSounds(categories[i]) {
      FilterKeepsAll(categories, HasSounds);
    }
  }

  /**
   * The expanded card's contents: one view per category in manifest order,
   * skipping categories without sounds, one button per sound in order.
   */
  function CategoryViews(p: Pack, categories: seq<(string, Category)>): (r: seq<CategoryView>)
    ensures ShowsCategories(p, categories, r)
    ensures |r| <= |categories|
    ensures forall v :: v in r ==> |v.buttons| > 0
    ensures forall v, b :: v in r && b in v.buttons ==> StartsWith(b.url, BaseUrl(p) + SoundsDir)
    ensures (forall i :: 0 <= i < |categories| ==> HasSounds(categories[i])) ==> |r| == |categories|
  {
    var r := Views(p, categories);
    ShownCategoriesShape(p, categories, r);
    r
  }

  /** The recursion behind `CategoryViews`. */
  function Views(p: Pack, categories: seq<(string, Category)>): (r: seq<CategoryView>)
    ensures ShowsCategories(p, categories, r)
  {
    if |categories| == 0 then []
    else
      var (key, cat) := categories[0];
      var rest := Views(p, categories[1..]);
      var shownRest := Filter(categories[1..], HasSounds);
      assert forall i :: 0 <= i < |categories| - 1 ==> categories[1..][i] == categories[i + 1];
      if !HasSounds(categories[0]) then
        assert Filter(categories, HasSounds) == shownRest;
        rest
      else
        var view := CategoryView(key, Buttons(p, CategorySounds(cat)));
        assert Filter(categories, HasSounds) == [categories[0]] + shownRest;
        [view] + rest
  }
}
