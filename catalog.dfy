/** One catalog entry (src/main.rs:6-14). The catalog is the `seq<Language>`
    loaded at start-up, in file order; nothing changes it afterwards. */
module Catalog {

  /** Rust's `u32`: the type of a record's year and of the `year` query. */
  type U32 = x: nat | x < 0x1_0000_0000

  /** One language record, as the JSON file spells it. `name` is not
      necessarily unique, and `influenced_by` is descriptive text only. */
  datatype Language = Language(
    name: string,
    year: U32,
    creators: seq<string>,
    paradigm: seq<string>,
    typing: string,
    influencedBy: seq<string>)
}
