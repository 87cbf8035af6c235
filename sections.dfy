/** The page sections the scroll handlers walk, in document order. */
module Sections {

  /** One `.section` element as the handlers see it: its `id` attribute,
      its `offsetTop` and its `clientHeight` (both whole CSS pixels). */
  datatype Section = Section(id: string, top: int, height: nat)
}
