/** The optional-value type shared by the modules of this project; `None` stands
    for the `null` that the plugin's Java code returns for "no result". */
module Options {

  datatype Option<+T> = None | Some(value: T)

}
