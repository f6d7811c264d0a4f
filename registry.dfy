/** The registry's description of one installable sound pack. */
module Registry {
  import opened Wrappers

  datatype Author = Author(name: Option<string>)

  /**
   * One entry of the registry's `packs` list. Optional fields of the JSON
   * document are `Option`s.
   */
  datatype Pack = Pack(
    name: string,
    displayName: string,
    description: Option<string>,
    language: Option<string>,
    soundCount: nat,
    sourceRepo: string,
    sourceRef: string,
    sourcePath: Option<string>,
    previewSounds: Option<seq<string>>,
    author: Option<Author>,
    tags: Option<seq<string>>)

  /** The identifiers the registry lists: `new Set(packs.map(p => p.name))`. */
  function Names(packs: seq<Pack>): (r: set<string>)
    ensures forall i :: 0 <= i < |packs| ==> packs[i].name in r
    ensures forall n :: n in r ==> exists i :: 0 <= i < |packs| && packs[i].name == n
  {
    set p | p in packs :: p.name
  }
}
