/** The shared enumerations of the component library that the modelled rules use. */
module Types {

  /** Aggregate state of a parent checkbox: unchecked, partly checked, checked. */
  datatype TriState = Off | Indeterminate | On

  /** Layout direction of a navigation bar. */
  datatype Orientation = Horizontal | Vertical
}
