/** What a handler hands to the database: a fixed query template chosen in the
    code, the values spliced into the template's text, and the values bound to
    its `?` placeholders. Only bound values can come from the request. */
module Sql {
  import opened Http

  /** The fixed query templates of the modelled handlers. */
  datatype Template =
    | PlayersByName     // full-text match on players.name, one `?`
    | MapsByTags        // full-text match on maps.search_tags and a mode, two `?`
    | ServerByToken     // servers row with a given token, one `?`
    | MapTopByFilter    // map-top aggregation, three `?` and two spliced fragments

  datatype Param = Text(text: string) | Bytes(bytes: seq<byte>) | Unsigned(n: nat)

  datatype Statement = Statement(template: Template, splices: seq<string>, params: seq<Param>)

  /** Number of `?` placeholders in a template. */
  function Placeholders(t: Template): nat {
    match t
    case PlayersByName => 1
    case MapsByTags => 2
    case ServerByToken => 1
    case MapTopByFilter => 3
  }

  /** Number of distinct values interpolated into a template's text. */
  function SpliceSlots(t: Template): nat {
    match t
    case MapTopByFilter => 2
    case _ => 0
  }

  /** A statement fills every placeholder and every splice slot of its template. */
  predicate WellFormed(st: Statement) {
    |st.params| == Placeholders(st.template) && |st.splices| == SpliceSlots(st.template)
  }
}
