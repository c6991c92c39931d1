/** The nullable references of the plugin (a cursor item, a material that may be unset, the rule id
    found by a scan) are modelled as an explicit Option. */
module Options {

  datatype Option<+T> = None | Some(value: T)
}
